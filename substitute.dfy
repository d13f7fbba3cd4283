/**
 * The substitution step of `downcode`: find every character of the text that belongs to the
 * active character class, queue (character, lookup value) pairs for those that are keys of the
 * active lookup, then apply the queue with one array `str_replace`, which replaces the pairs
 * one after another over the whole text.
 */
module Substitute {
  import opened Text

  /** `preg_match_all('/[chars]/u', s)`: the characters of `s` that belong to the class, in order. */
  function Matches(s: string, cls: set<char>): (r: string)
    ensures |r| <= |s|
    ensures forall c :: c in r <==> c in s && c in cls
  {
    if s == [] then [] else (if s[0] in cls then [s[0]] else []) + Matches(s[1..], cls)
  }

  /** What one matched character adds to the queue: a pair when it is a key of the lookup. */
  function QueueItem(c: char, lookup: map<string, string>): seq<(char, string)> {
    if [c] in lookup then [(c, lookup[[c]])] else []
  }

  /**
   * The pairs `downcode`'s `for` loop collects, one per matched occurrence (duplicates
   * included); a multi-character key is never looked up.
   */
  function Queue(matched: string, lookup: map<string, string>): (q: seq<(char, string)>)
    ensures |q| <= |matched|
    ensures forall p :: p in q ==> p.0 in matched && [p.0] in lookup && p.1 == lookup[[p.0]]
    ensures forall c :: c in matched && [c] in lookup ==> (c, lookup[[c]]) in q
  {
    if matched == [] then []
    else Queue(matched[..|matched| - 1], lookup) + QueueItem(matched[|matched| - 1], lookup)
  }

  /** `str_replace` of one single-character needle: every occurrence of `c` becomes `v`. */
  function ReplaceAll(s: string, c: char, v: string): (r: string)
    ensures c !in s ==> r == s
    ensures forall x :: x in r ==> (x in s && x != c) || x in v
  {
    if s == [] then []
    else (if s[0] == c then v else [s[0]]) + ReplaceAll(s[1..], c, v)
  }

  /** Array `str_replace`: each pair is a replace-all over the result of the pairs before it. */
  function ApplyPairs(s: string, pairs: seq<(char, string)>): string {
    if pairs == [] then s
    else
      var last := pairs[|pairs| - 1];
      ReplaceAll(ApplyPairs(s, pairs[..|pairs| - 1]), last.0, last.1)
  }

  /** The `for` loop of `downcode` that fills the search and replace arrays. */
  method CollectPairs(matched: string, lookup: map<string, string>) returns (pairs: seq<(char, string)>)
    ensures pairs == Queue(matched, lookup)
  {
    pairs := [];
    var i := 0;
    while i < |matched|
      invariant 0 <= i <= |matched|
      invariant pairs == Queue(matched[..i], lookup)
    {
      assert matched[..i + 1][..i] == matched[..i];
      var c := matched[i];
      if [c] in lookup {
        pairs := pairs + [(c, lookup[[c]])];
      }
      i := i + 1;
    }
    assert matched[..|matched|] == matched;
  }

  /** `str_replace($searchArray, $replaceArray, $string)`: the pairs applied in queue order. */
  method StrReplace(subject: string, pairs: seq<(char, string)>) returns (r: string)
    ensures r == ApplyPairs(subject, pairs)
  {
    r := subject;
    var i := 0;
    while i < |pairs|
      invariant 0 <= i <= |pairs|
      invariant r == ApplyPairs(subject, pairs[..i])
    {
      assert pairs[..i + 1][..i] == pairs[..i];
      r := ReplaceAll(r, pairs[i].0, pairs[i].1);
      i := i + 1;
    }
    assert pairs[..|pairs|] == pairs;
  }

  /** The whole substitution step, as a function of the text, the class and the lookup. */
  function Substitution(s: string, cls: set<char>, lookup: map<string, string>): string {
    ApplyPairs(s, Queue(Matches(s, cls), lookup))
  }

  // ---------------------------------------------------------------------------
  // Reference: character-by-character transcription
  // ---------------------------------------------------------------------------

  /** A character's image when the characters of `active` are transcribed. */
  function Image(c: char, lookup: map<string, string>, active: set<char>): string {
    if c in active && [c] in lookup then lookup[[c]] else [c]
  }

  /** Each character of `s` replaced by its image, independently of the others. */
  function Transcribe(s: string, lookup: map<string, string>, active: set<char>): (r: string)
    ensures (forall i :: 0 <= i < |s| ==> Image(s[i], lookup, active) == [s[i]]) ==> r == s
  {
    if s == [] then [] else Image(s[0], lookup, active) + Transcribe(s[1..], lookup, active)
  }

  /**
   * No cascade: a lookup value may contain a class character with its own entry only when
   * that character maps to itself.
   */
  predicate Stable(lookup: map<string, string>, cls: set<char>) {
    forall k, x :: k in lookup && |k| == 1 && k[0] in cls && x in lookup[k] && x in cls && [x] in lookup ==>
      lookup[[x]] == [x]
  }

  lemma {:induction false} ReplaceAllConcat(a: string, b: string, c: char, v: string)
    ensures ReplaceAll(a + b, c, v) == ReplaceAll(a, c, v) + ReplaceAll(b, c, v)
    decreases |a|
  {
    if a == [] {
      assert a + b == b;
    } else {
      assert (a + b)[1..] == a[1..] + b;
      ReplaceAllConcat(a[1..], b, c, v);
    }
  }

  lemma {:induction false} ReplaceAllSelf(s: string, c: char)
    ensures ReplaceAll(s, c, [c]) == s
    decreases |s|
  {
    if s != [] {
      ReplaceAllSelf(s[1..], c);
    }
  }

  /** Replacing one more key over a partial transcription extends the transcription by that key. */
  lemma {:induction false} TranscribeStep(s: string, lookup: map<string, string>, cls: set<char>, done: set<char>, c: char)
    requires Stable(lookup, cls) && done <= cls
    requires c in cls && [c] in lookup
    ensures ReplaceAll(Transcribe(s, lookup, done), c, lookup[[c]]) == Transcribe(s, lookup, done + {c})
    decreases |s|
  {
    if s != [] {
      var piece := Image(s[0], lookup, done);
      ReplaceAllConcat(piece, Transcribe(s[1..], lookup, done), c, lookup[[c]]);
      TranscribeStep(s[1..], lookup, cls, done, c);
      if s[0] in done && [s[0]] in lookup {
        if c in piece {
          assert [s[0]][0] == s[0];
          assert lookup[[c]] == [c];
          ReplaceAllSelf(piece, c);
        }
      } else if s[0] == c {
        assert ReplaceAll(piece, c, lookup[[c]]) == lookup[[c]] + ReplaceAll([], c, lookup[[c]]);
      }
    }
  }

  function Keys(pairs: seq<(char, string)>): set<char> {
    set p | p in pairs :: p.0
  }

  /** Applying a queue of genuine lookup pairs transcribes exactly the queued keys. */
  lemma {:induction false} ApplyPairsTranscribes(s: string, lookup: map<string, string>, cls: set<char>, pairs: seq<(char, string)>)
    requires Stable(lookup, cls)
    requires forall p :: p in pairs ==> p.0 in cls && [p.0] in lookup && p.1 == lookup[[p.0]]
    ensures ApplyPairs(Transcribe(s, lookup, {}), pairs) == Transcribe(s, lookup, Keys(pairs))
    decreases |pairs|
  {
    if pairs == [] {
      assert Keys(pairs) == {};
    } else {
      var init := pairs[..|pairs| - 1];
      var last := pairs[|pairs| - 1];
      assert last in pairs;
      assert forall p :: p in init ==> p in pairs;
      ApplyPairsTranscribes(s, lookup, cls, init);
      assert Keys(init) <= cls;
      TranscribeStep(s, lookup, cls, Keys(init), last.0);
      KeysSnoc(pairs);
      assert ApplyPairs(Transcribe(s, lookup, {}), pairs)
          == ReplaceAll(Transcribe(s, lookup, Keys(init)), last.0, lookup[[last.0]]);
    }
  }

  lemma KeysSnoc(pairs: seq<(char, string)>)
    requires pairs != []
    ensures Keys(pairs) == Keys(pairs[..|pairs| - 1]) + {pairs[|pairs| - 1].0}
  {
    var init := pairs[..|pairs| - 1];
    forall x | x in Keys(pairs) ensures x in Keys(init) + {pairs[|pairs| - 1].0} {
      var p :| p in pairs && p.0 == x;
      var i :| 0 <= i < |pairs| && pairs[i] == p;
      if i < |pairs| - 1 {
        assert init[i] == p;
      }
    }
    assert pairs[|pairs| - 1] in pairs;
    assert forall p :: p in init ==> p in pairs;
  }

  /** Transcription only depends on which characters of the text are transcribed. */
  lemma {:induction false} TranscribeAgree(s: string, lookup: map<string, string>, a: set<char>, b: set<char>)
    requires forall i :: 0 <= i < |s| ==> Image(s[i], lookup, a) == Image(s[i], lookup, b)
    ensures Transcribe(s, lookup, a) == Transcribe(s, lookup, b)
    decreases |s|
  {
    if s != [] {
      TranscribeAgree(s[1..], lookup, a, b);
    }
  }

  /**
   * Without cascades, the sequential replacement is a per-character transcription: every
   * mapped class character becomes its value, every other character is left untouched.
   */
  lemma SubstitutionIsTranscription(s: string, cls: set<char>, lookup: map<string, string>)
    requires Stable(lookup, cls)
    ensures Substitution(s, cls, lookup) == Transcribe(s, lookup, cls)
  {
    var q := Queue(Matches(s, cls), lookup);
    TranscribeNothing(s, lookup);
    ApplyPairsTranscribes(s, lookup, cls, q);
    QueueCoversClass(s, cls, lookup);
    TranscribeAgree(s, lookup, Keys(q), cls);
  }

  /** Transcribing no character leaves the text as it is. */
  lemma TranscribeNothing(s: string, lookup: map<string, string>)
    ensures Transcribe(s, lookup, {}) == s
  {
    TranscribeAgree(s, lookup, {}, {});
  }

  /** On the text, transcribing the queued keys is the same as transcribing the whole class. */
  lemma QueueCoversClass(s: string, cls: set<char>, lookup: map<string, string>)
    ensures var q := Queue(Matches(s, cls), lookup);
      forall i :: 0 <= i < |s| ==> Image(s[i], lookup, Keys(q)) == Image(s[i], lookup, cls)
  {
    var q := Queue(Matches(s, cls), lookup);
    forall i | 0 <= i < |s|
      ensures Image(s[i], lookup, Keys(q)) == Image(s[i], lookup, cls)
    {
      if s[i] in cls && [s[i]] in lookup {
        assert s[i] in Matches(s, cls);
        assert (s[i], lookup[[s[i]]]) in q;
      }
    }
  }

  /** Entries whose key is not exactly one character never take part in the substitution. */
  lemma MultiCharKeyUnused(s: string, cls: set<char>, lookup: map<string, string>, k: string, v: string)
    requires |k| != 1
    ensures Substitution(s, cls, lookup[k := v]) == Substitution(s, cls, lookup)
  {
    QueueIgnoresLongKeys(Matches(s, cls), lookup, k, v);
  }

  lemma {:induction false} QueueIgnoresLongKeys(matched: string, lookup: map<string, string>, k: string, v: string)
    requires |k| != 1
    ensures Queue(matched, lookup[k := v]) == Queue(matched, lookup)
    decreases |matched|
  {
    if matched != [] {
      var c := matched[|matched| - 1];
      assert [c] != k;
      QueueIgnoresLongKeys(matched[..|matched| - 1], lookup, k, v);
    }
  }

  /**
   * The replacement text of one pair is rescanned by the later pairs: with "+" mapped to a word
   * containing "ı" and "ı" mapped to "i", the result depends on which comes first in the text.
   */
  lemma SubstitutionCascades(cls: set<char>, lookup: map<string, string>)
    requires '+' in cls && 'ı' in cls
    requires "+" in lookup && lookup["+"] == " artı "
    requires "ı" in lookup && lookup["ı"] == "i"
    ensures Substitution("+ı", cls, lookup) == " arti i"
    ensures Substitution("ı+", cls, lookup) == "i artı "
    ensures Transcribe("+ı", lookup, cls) == " artı i"
  {
    CascadeQueues(cls, lookup);
    PlusFirst();
    DotlessFirst();
    PerCharacter(cls, lookup);
  }

  lemma PerCharacter(cls: set<char>, lookup: map<string, string>)
    requires '+' in cls && 'ı' in cls
    requires "+" in lookup && lookup["+"] == " artı "
    requires "ı" in lookup && lookup["ı"] == "i"
    ensures Transcribe("+ı", lookup, cls) == " artı i"
  {
    assert "+ı"[1..][1..] == [];
    assert Image('+', lookup, cls) == " artı ";
    assert Image('ı', lookup, cls) == "i";
  }

  lemma CascadeQueues(cls: set<char>, lookup: map<string, string>)
    requires '+' in cls && 'ı' in cls
    requires "+" in lookup && lookup["+"] == " artı "
    requires "ı" in lookup && lookup["ı"] == "i"
    ensures Queue(Matches("+ı", cls), lookup) == [('+', " artı "), ('ı', "i")]
    ensures Queue(Matches("ı+", cls), lookup) == [('ı', "i"), ('+', " artı ")]
  {
    assert Matches("+ı", cls) == "+ı";
    assert Matches("ı+", cls) == "ı+";
    assert "+ı"[..1] == "+";
    assert "ı+"[..1] == "ı";
  }

  lemma PlusFirst()
    ensures ApplyPairs("+ı", [('+', " artı "), ('ı', "i")]) == " arti i"
  {
    var q := [('+', " artı "), ('ı', "i")];
    assert q[..1] == [('+', " artı ")];
    assert q[..1][..0] == [];
    assert ReplaceAll("+ı", '+', " artı ") == " artı ı";
    assert " artı ı" == " art" + "ı" + " " + "ı";
    ReplaceTwice(" art", " ", 'ı', "i");
    assert " art" + "i" + " " + "i" == " arti i";
  }

  /** Both occurrences of `c`, framed by text without it, are replaced. */
  lemma ReplaceTwice(a: string, b: string, c: char, v: string)
    requires c !in a && c !in b
    ensures ReplaceAll(a + [c] + b + [c], c, v) == a + v + b + v
  {
    ReplaceAllConcat(a + [c] + b, [c], c, v);
    ReplaceAllConcat(a + [c], b, c, v);
    ReplaceAllConcat(a, [c], c, v);
  }

  lemma DotlessFirst()
    ensures ApplyPairs("ı+", [('ı', "i"), ('+', " artı ")]) == "i artı "
  {
    var q := [('ı', "i"), ('+', " artı ")];
    assert q[..1] == [('ı', "i")];
    assert q[..1][..0] == [];
    assert ReplaceAll("ı+", 'ı', "i") == "i+";
    assert ReplaceAll("i+", '+', " artı ") == "i artı ";
  }
}
