/**
 * The mapping registry `URLify::$maps` and the flattening done by `init_downcode`:
 * an ordered sequence of keyed character tables, moved and merged into one lookup
 * in which later tables win.
 */
module Registry {
  import opened Wrappers
  import opened Text

  /** A key of `URLify::$maps`: a language name, or the integer PHP gives a table appended with `[]`. */
  datatype Key = Name(name: string) | Index(index: int)

  /** One character table: its key and its (search, replacement) entries in insertion order. */
  datatype Table = Table(key: Key, entries: seq<(string, string)>)

  /** A decimal literal PHP accepts as an integer array key: "0" or no leading zero. */
  predicate IsNatLiteral(s: string) {
    |s| > 0 && (forall i :: 0 <= i < |s| ==> IsDigit(s[i])) && (s[0] == '0' ==> |s| == 1)
  }

  function DigitsValue(s: string): nat
    requires forall i :: 0 <= i < |s| ==> IsDigit(s[i])
  {
    if s == [] then 0
    else
      assert IsDigit(s[|s| - 1]);
      10 * DigitsValue(s[..|s| - 1]) + (s[|s| - 1] as int - '0' as int)
  }

  /** The key PHP uses for `$maps[$language]`: a canonical integer string becomes an integer key. */
  function KeyOf(language: string): Key {
    if IsNatLiteral(language) then Index(DigitsValue(language))
    else if |language| > 1 && language[0] == '-' && IsNatLiteral(language[1..]) && language[1] != '0'
    then Index(-(DigitsValue(language[1..]) as int))
    else Name(language)
  }

  /** PHP array keys are unique: no two tables of the registry share a key. */
  predicate UniqueKeys(maps: seq<Table>) {
    forall i, j :: 0 <= i < j < |maps| ==> maps[i].key != maps[j].key
  }

  // ---------------------------------------------------------------------------
  // Flattening (init_downcode's nested foreach)
  // ---------------------------------------------------------------------------

  /** `self::$map[$orig] = $conv` for every entry of a table, in order. */
  function PutAll(m: map<string, string>, entries: seq<(string, string)>): map<string, string> {
    if entries == [] then m
    else
      var last := entries[|entries| - 1];
      PutAll(m, entries[..|entries| - 1])[last.0 := last.1]
  }

  /** The lookup `self::$map` built from the registry in order. */
  function Flatten(maps: seq<Table>): map<string, string> {
    if maps == [] then map[]
    else PutAll(Flatten(maps[..|maps| - 1]), maps[|maps| - 1].entries)
  }

  /** `self::$chars .= $orig` for every entry of a table, in order. */
  function EntryChars(entries: seq<(string, string)>): string {
    if entries == [] then "" else EntryChars(entries[..|entries| - 1]) + entries[|entries| - 1].0
  }

  /** The character list `self::$chars` built from the registry in order. */
  function KeyChars(maps: seq<Table>): string {
    if maps == [] then "" else KeyChars(maps[..|maps| - 1]) + EntryChars(maps[|maps| - 1].entries)
  }

  /** The value a single table gives `k` (the last assignment of `k` in it). */
  function TableGet(entries: seq<(string, string)>, k: string): Option<string> {
    if entries == [] then None
    else if entries[|entries| - 1].0 == k then Some(entries[|entries| - 1].1)
    else TableGet(entries[..|entries| - 1], k)
  }

  /** Reference definition of priority: the value from the last table, in registry order, that has `k`. */
  function LastValue(maps: seq<Table>, k: string): Option<string> {
    if maps == [] then None
    else match TableGet(maps[|maps| - 1].entries, k)
      case Some(v) => Some(v)
      case None => LastValue(maps[..|maps| - 1], k)
  }

  /** A key no entry of the table has is not set by it. */
  lemma {:induction false} TableGetAbsent(entries: seq<(string, string)>, k: string)
    requires forall j :: 0 <= j < |entries| ==> entries[j].0 != k
    ensures TableGet(entries, k) == None
  {
    if entries != [] {
      TableGetAbsent(entries[..|entries| - 1], k);
    }
  }

  /** The entry at `i` decides the value of `k` when no later entry of the table assigns `k`. */
  lemma {:induction false} TableGetLatest(entries: seq<(string, string)>, i: nat, k: string)
    requires i < |entries| && entries[i].0 == k
    requires forall j :: i < j < |entries| ==> entries[j].0 != k
    ensures TableGet(entries, k) == Some(entries[i].1)
  {
    if i < |entries| - 1 {
      TableGetLatest(entries[..|entries| - 1], i, k);
    }
  }

  /** The table at `i` decides the value of `k` when no later table has `k`. */
  lemma {:induction false} LastValueLatest(maps: seq<Table>, i: nat, k: string)
    requires i < |maps| && TableGet(maps[i].entries, k).Some?
    requires forall j :: i < j < |maps| ==> TableGet(maps[j].entries, k).None?
    ensures LastValue(maps, k) == TableGet(maps[i].entries, k)
  {
    if i < |maps| - 1 {
      LastValueLatest(maps[..|maps| - 1], i, k);
    }
  }

  lemma {:induction false} PutAllGet(m: map<string, string>, entries: seq<(string, string)>, k: string)
    ensures k in PutAll(m, entries) <==> k in m || TableGet(entries, k).Some?
    ensures TableGet(entries, k).Some? ==> PutAll(m, entries)[k] == TableGet(entries, k).value
    ensures TableGet(entries, k).None? && k in m ==> PutAll(m, entries)[k] == m[k]
    decreases |entries|
  {
    if entries != [] {
      PutAllGet(m, entries[..|entries| - 1], k);
    }
  }

  /** The flattened lookup holds exactly the keys of the registry, each with the value of the last table having it. */
  lemma {:induction false} FlattenIsLastValue(maps: seq<Table>, k: string)
    ensures k in Flatten(maps) <==> LastValue(maps, k).Some?
    ensures k in Flatten(maps) ==> Flatten(maps)[k] == LastValue(maps, k).value
    decreases |maps|
  {
    if maps != [] {
      FlattenIsLastValue(maps[..|maps| - 1], k);
      PutAllGet(Flatten(maps[..|maps| - 1]), maps[|maps| - 1].entries, k);
    }
  }

  lemma {:induction false} LastValueAppend(maps: seq<Table>, t: Table, k: string)
    ensures LastValue(maps + [t], k) == match TableGet(t.entries, k)
      case Some(v) => Some(v)
      case None => LastValue(maps, k)
  {
    assert (maps + [t])[..|maps + [t]| - 1] == maps;
  }

  /** The nested `foreach` of `init_downcode`: rebuilds `self::$map` and `self::$chars` from the registry. */
  method BuildLookup(maps: seq<Table>) returns (lookup: map<string, string>, chars: string)
    ensures lookup == Flatten(maps)
    ensures chars == KeyChars(maps)
  {
    lookup, chars := map[], "";
    var i := 0;
    while i < |maps|
      invariant 0 <= i <= |maps|
      invariant lookup == Flatten(maps[..i]) && chars == KeyChars(maps[..i])
    {
      var entries := maps[i].entries;
      var j := 0;
      while j < |entries|
        invariant 0 <= j <= |entries|
        invariant lookup == PutAll(Flatten(maps[..i]), entries[..j])
        invariant chars == KeyChars(maps[..i]) + EntryChars(entries[..j])
      {
        assert entries[..j + 1][..j] == entries[..j];
        lookup := lookup[entries[j].0 := entries[j].1];
        chars := chars + entries[j].0;
        j := j + 1;
      }
      assert entries[..j] == entries;
      assert maps[..i + 1][..i] == maps[..i];
      i := i + 1;
    }
    assert maps[..i] == maps;
  }

  // ---------------------------------------------------------------------------
  // Moving the requested language's table to the end
  // ---------------------------------------------------------------------------

  /** `isset(self::$maps[$key])`: the table with that key, if any. */
  function Find(maps: seq<Table>, key: Key): (r: Option<Table>)
    ensures r.Some? ==> r.value in maps && r.value.key == key
    ensures r.None? ==> forall t :: t in maps ==> t.key != key
  {
    if maps == [] then None
    else if maps[0].key == key then Some(maps[0])
    else Find(maps[1..], key)
  }

  /** `unset(self::$maps[$key])`: the registry without that key, the others in their order. */
  function Without(maps: seq<Table>, key: Key): seq<Table> {
    if maps == [] then []
    else if maps[0].key == key then Without(maps[1..], key)
    else [maps[0]] + Without(maps[1..], key)
  }

  /** `init_downcode`'s reorder: the requested language's table, if registered, becomes the last one. */
  function Prioritize(maps: seq<Table>, key: Key): seq<Table> {
    match Find(maps, key)
    case None => maps
    case Some(t) => Without(maps, key) + [t]
  }

  lemma {:induction false} WithoutMembers(maps: seq<Table>, key: Key)
    ensures forall t :: t in Without(maps, key) <==> t in maps && t.key != key
  {
    if maps != [] {
      WithoutMembers(maps[1..], key);
    }
  }

  lemma {:induction false} WithoutUnique(maps: seq<Table>, key: Key)
    requires UniqueKeys(maps)
    ensures UniqueKeys(Without(maps, key))
  {
    if maps != [] {
      assert UniqueKeys(maps[1..]) by {
        forall i, j | 0 <= i < j < |maps[1..]| ensures maps[1..][i].key != maps[1..][j].key {
          assert maps[1..][i] == maps[i + 1] && maps[1..][j] == maps[j + 1];
        }
      }
      WithoutUnique(maps[1..], key);
      WithoutMembers(maps[1..], key);
      if maps[0].key != key {
        var w := Without(maps[1..], key);
        forall j | 0 <= j < |w| ensures maps[0].key != w[j].key {
          assert w[j] in maps[1..];
        }
      }
    }
  }

  lemma UniqueTail(maps: seq<Table>)
    requires UniqueKeys(maps) && maps != []
    ensures UniqueKeys(maps[1..])
    ensures forall u :: u in maps[1..] ==> u.key != maps[0].key
  {
    forall i, j | 0 <= i < j < |maps[1..]| ensures maps[1..][i].key != maps[1..][j].key {
      assert maps[1..][i] == maps[i + 1] && maps[1..][j] == maps[j + 1];
    }
    forall u | u in maps[1..] ensures u.key != maps[0].key {
      var j :| 0 <= j < |maps[1..]| && maps[1..][j] == u;
      assert maps[j + 1] == u;
    }
  }

  lemma {:induction false} WithoutMultiset(maps: seq<Table>, key: Key, t: Table)
    requires UniqueKeys(maps) && Find(maps, key) == Some(t)
    ensures multiset(Without(maps, key)) + multiset{t} == multiset(maps)
  {
    assert maps == [maps[0]] + maps[1..];
    if maps[0].key == key {
      assert Without(maps, key) == maps[1..] by {
        UniqueTail(maps);
        NoKeyFindsNothing(maps[1..], key);
        WithoutAbsent(maps[1..], key);
      }
    } else {
      assert UniqueKeys(maps[1..]) by {
        UniqueTail(maps);
      }
      WithoutMultiset(maps[1..], key, t);
    }
  }

  lemma NoKeyFindsNothing(maps: seq<Table>, key: Key)
    requires forall u :: u in maps ==> u.key != key
    ensures Find(maps, key).None?
  {
  }

  lemma {:induction false} WithoutAbsent(maps: seq<Table>, key: Key)
    requires Find(maps, key).None?
    ensures Without(maps, key) == maps
  {
    if maps != [] {
      WithoutAbsent(maps[1..], key);
      assert maps == [maps[0]] + maps[1..];
    }
  }

  /**
   * Moving a language to the end permutes the registry: no table is lost or duplicated,
   * keys stay unique, and the moved table (when there is one) is last.
   */
  lemma PrioritizeIsPermutation(maps: seq<Table>, key: Key)
    requires UniqueKeys(maps)
    ensures multiset(Prioritize(maps, key)) == multiset(maps)
    ensures UniqueKeys(Prioritize(maps, key))
    ensures Find(maps, key).Some? ==>
      |Prioritize(maps, key)| > 0 &&
      Prioritize(maps, key)[|Prioritize(maps, key)| - 1] == Find(maps, key).value
  {
    match Find(maps, key)
    case None =>
    case Some(t) =>
      WithoutMultiset(maps, key, t);
      WithoutUnique(maps, key);
      WithoutMembers(maps, key);
      var w := Without(maps, key);
      assert |multiset(w)| + 1 == |multiset(maps)|;
      assert |w| == |maps| - 1;
      forall i, j | 0 <= i < j < |w + [t]| ensures (w + [t])[i].key != (w + [t])[j].key {
        if j == |w| {
          assert (w + [t])[i] in w;
        } else {
          assert (w + [t])[i] == w[i] && (w + [t])[j] == w[j];
        }
      }
  }

  /**
   * Priority: after moving language `key`'s table to the end, every key it has maps to its value;
   * every other key gets the value from the last of the remaining tables, in their original order.
   */
  lemma PrioritizeWins(maps: seq<Table>, key: Key, k: string)
    ensures Find(maps, key).Some? && TableGet(Find(maps, key).value.entries, k).Some? ==>
      k in Flatten(Prioritize(maps, key)) &&
      Flatten(Prioritize(maps, key))[k] == TableGet(Find(maps, key).value.entries, k).value
    ensures Find(maps, key).Some? && TableGet(Find(maps, key).value.entries, k).None? ==>
      LastValue(Prioritize(maps, key), k) == LastValue(Without(maps, key), k)
    ensures Find(maps, key).None? ==> Flatten(Prioritize(maps, key)) == Flatten(maps)
  {
    match Find(maps, key)
    case None =>
    case Some(t) =>
      LastValueAppend(Without(maps, key), t, k);
      FlattenIsLastValue(Prioritize(maps, key), k);
  }

  /** Moving the table at position `i` to the end, written with slices. */
  lemma PrioritizeAt(maps: seq<Table>, i: nat)
    requires UniqueKeys(maps) && i < |maps|
    ensures Prioritize(maps, maps[i].key) == maps[..i] + maps[i + 1..] + [maps[i]]
  {
    FindAt(maps, i);
    WithoutAt(maps, i);
  }

  lemma {:induction false} FindAt(maps: seq<Table>, i: nat)
    requires UniqueKeys(maps) && i < |maps|
    ensures Find(maps, maps[i].key) == Some(maps[i])
  {
    if i > 0 {
      UniqueTail(maps);
      assert maps[1..][i - 1] == maps[i];
      FindAt(maps[1..], i - 1);
    }
  }

  lemma {:induction false} WithoutAt(maps: seq<Table>, i: nat)
    requires UniqueKeys(maps) && i < |maps|
    ensures Without(maps, maps[i].key) == maps[..i] + maps[i + 1..]
  {
    UniqueTail(maps);
    if i == 0 {
      NoKeyFindsNothing(maps[1..], maps[0].key);
      WithoutAbsent(maps[1..], maps[0].key);
    } else {
      assert maps[1..][i - 1] == maps[i];
      assert maps[0].key != maps[i].key;
      assert Without(maps, maps[i].key) == [maps[0]] + Without(maps[1..], maps[i].key);
      WithoutAt(maps[1..], i - 1);
      assert maps[1..][..i - 1] + maps[1..][i..] == maps[1..i] + maps[i + 1..];
      assert maps[..i] == [maps[0]] + maps[1..i];
    }
  }

  /** Rebuilding for the same language again leaves the order as it is: the reorder is idempotent. */
  lemma PrioritizeIdempotent(maps: seq<Table>, key: Key)
    requires UniqueKeys(maps)
    ensures Prioritize(Prioritize(maps, key), key) == Prioritize(maps, key)
  {
    match Find(maps, key)
    case None =>
    case Some(t) =>
      var w := Without(maps, key);
      WithoutMembers(maps, key);
      NoKeyFindsNothing(w, key);
      WithoutAbsent(w, key);
      FindAppend(w, t, key);
      WithoutAppend(w, [t], key);
  }

  lemma {:induction false} FindAppend(w: seq<Table>, t: Table, key: Key)
    requires Find(w, key).None? && t.key == key
    ensures Find(w + [t], key) == Some(t)
  {
    if w != [] {
      assert (w + [t])[1..] == w[1..] + [t];
      FindAppend(w[1..], t, key);
    }
  }

  lemma {:induction false} WithoutAppend(a: seq<Table>, b: seq<Table>, key: Key)
    ensures Without(a + b, key) == Without(a, key) + Without(b, key)
  {
    if a != [] {
      var t := a[1..];
      SplitFirst(a, b);
      assert a == [a[0]] + t;
      WithoutAppend(t, b, key);
      WithoutCons(a[0], t + b, key);
      WithoutCons(a[0], t, key);
      Regroup(if a[0].key == key then [] else [a[0]], Without(t, key), Without(b, key));
    } else {
      assert a + b == b;
    }
  }

  /** One step of `Without`: the first table is dropped or kept, the rest goes on. */
  lemma WithoutCons(t: Table, rest: seq<Table>, key: Key)
    ensures Without([t] + rest, key) == (if t.key == key then [] else [t]) + Without(rest, key)
  {
    assert ([t] + rest)[1..] == rest;
  }

  /** Every character of `self::$chars` comes from the key of some entry of some table. */
  lemma {:induction false} KeyCharsFrom(maps: seq<Table>, c: char)
    requires c in KeyChars(maps)
    ensures exists t, e :: t in maps && e in t.entries && c in e.0
  {
    var init := maps[..|maps| - 1];
    var last := maps[|maps| - 1];
    if c in KeyChars(init) {
      KeyCharsFrom(init, c);
      var t, e :| t in init && e in t.entries && c in e.0;
      assert t in maps;
    } else {
      var e := EntryCharsFrom(last.entries, c);
      assert last in maps;
    }
  }

  lemma {:induction false} EntryCharsFrom(entries: seq<(string, string)>, c: char) returns (e: (string, string))
    requires c in EntryChars(entries)
    ensures e in entries && c in e.0
  {
    var init := entries[..|entries| - 1];
    if c in EntryChars(init) {
      e := EntryCharsFrom(init, c);
      assert e in entries;
    } else {
      e := entries[|entries| - 1];
    }
  }

  /** Every character of a registered key is in `self::$chars`, so the character class matches it. */
  lemma {:induction false} KeyCharsCover(maps: seq<Table>, i: nat, e: (string, string), c: char)
    requires i < |maps| && e in maps[i].entries && c in e.0
    ensures c in KeyChars(maps)
  {
    if i < |maps| - 1 {
      assert maps[..|maps| - 1][i] == maps[i];
      KeyCharsCover(maps[..|maps| - 1], i, e, c);
    } else {
      EntryCharsCover(maps[i].entries, e, c);
    }
  }

  lemma {:induction false} EntryCharsCover(entries: seq<(string, string)>, e: (string, string), c: char)
    requires e in entries && c in e.0
    ensures c in EntryChars(entries)
  {
    if entries[|entries| - 1] != e {
      assert e in entries[..|entries| - 1];
      EntryCharsCover(entries[..|entries| - 1], e, c);
    }
  }
}
