/** The synonym dictionary: thesaurus entries folded into a map from the
    lowered headword to the set of lowered synonyms, headword included.
    Lower-casing (`ToLowerInvariant`) is the parameter `lower`, about which
    nothing is assumed. */
module Thesaurus {

  /** One record of the thesaurus file. */
  datatype Entry = Entry(key: string, pos: string, word: string, synonyms: seq<string>)

  type Dictionary = map<string, set<string>>

  /** The lowered forms of some strings. */
  function LowerAll(ss: seq<string>, lower: string -> string): set<string> {
    set s | s in ss :: lower(s)
  }

  /** Folds one entry into the dictionary: a new headword starts with the
      set holding its own lowered form, then every lowered synonym is added. */
  function AddEntry(dict: Dictionary, e: Entry, lower: string -> string): Dictionary {
    var key := lower(e.word);
    var synonyms := if key in dict then dict[key] else {lower(e.word)};
    dict[key := synonyms + LowerAll(e.synonyms, lower)]
  }

  /** The dictionary after folding in `entries` in order. */
  function Aggregate(entries: seq<Entry>, lower: string -> string): Dictionary {
    if |entries| == 0 then map[]
    else AddEntry(Aggregate(entries[..|entries| - 1], lower), entries[|entries| - 1], lower)
  }

  /** `k` is the lowered headword of some entry. */
  predicate IsHeadword(entries: seq<Entry>, lower: string -> string, k: string) {
    exists i | 0 <= i < |entries| :: lower(entries[i].word) == k
  }

  /** `s` is the lowered form of a synonym listed by an entry whose lowered
      headword is `k`. */
  predicate SynonymOf(entries: seq<Entry>, lower: string -> string, k: string, s: string) {
    exists i, j | 0 <= i < |entries| && 0 <= j < |entries[i].synonyms| ::
      lower(entries[i].word) == k && lower(entries[i].synonyms[j]) == s
  }

  /** Builds the dictionary, one entry and one synonym at a time.  The set
      stored under a new key is the one later synonyms are added to; the
      model stores it again after the inner loop instead of sharing it. */
  method BuildDictionary(entries: seq<Entry>, lower: string -> string) returns (dict: Dictionary)
    ensures dict == Aggregate(entries, lower)
  {
    dict := map[];
    for n := 0 to |entries|
      invariant dict == Aggregate(entries[..n], lower)
    {
      var entry := entries[n];
      var key := lower(entry.word);
      var synonyms: set<string>;
      if key in dict {
        synonyms := dict[key];
      } else {
        synonyms := {lower(entry.word)};
        dict := dict[key := synonyms];
      }
      ghost var initial := synonyms;
      for j := 0 to |entry.synonyms|
        invariant synonyms == initial + LowerAll(entry.synonyms[..j], lower)
      {
        assert entry.synonyms[..j + 1] == entry.synonyms[..j] + [entry.synonyms[j]];
        synonyms := synonyms + {lower(entry.synonyms[j])};
      }
      assert entry.synonyms[..|entry.synonyms|] == entry.synonyms;
      dict := dict[key := synonyms];
      assert entries[..n + 1][..n] == entries[..n];
    }
    assert entries[..|entries|] == entries;
  }

  /** The keys are exactly the lowered headwords of the entries. */
  lemma {:induction false} AggregateKeys(entries: seq<Entry>, lower: string -> string, k: string)
    ensures k in Aggregate(entries, lower) <==> IsHeadword(entries, lower, k)
  {
    if |entries| > 0 {
      var n := |entries| - 1;
      var prefix := entries[..n];
      AggregateKeys(prefix, lower, k);
      if IsHeadword(prefix, lower, k) {
        var i :| 0 <= i < n && lower(prefix[i].word) == k;
        assert entries[i] == prefix[i];
      }
      if IsHeadword(entries, lower, k) && lower(entries[n].word) != k {
        var i :| 0 <= i < |entries| && lower(entries[i].word) == k;
        assert prefix[i] == entries[i];
      }
    }
  }

  /** The set under a key holds the key itself and the lowered synonyms of
      every entry filed under that key, and nothing else. */
  lemma {:induction false} AggregateValues(entries: seq<Entry>, lower: string -> string, k: string, s: string)
    requires k in Aggregate(entries, lower)
    ensures s in Aggregate(entries, lower)[k] <==> s == k || SynonymOf(entries, lower, k, s)
  {
    var n := |entries| - 1;
    var prefix := entries[..n];
    var e := entries[n];
    if k in Aggregate(prefix, lower) {
      AggregateValues(prefix, lower, k, s);
    }
    if SynonymOf(prefix, lower, k, s) {
      var i, j :| 0 <= i < n && 0 <= j < |prefix[i].synonyms|
        && lower(prefix[i].word) == k && lower(prefix[i].synonyms[j]) == s;
      assert entries[i] == prefix[i];
    }
    if SynonymOf(entries, lower, k, s) {
      var i, j :| 0 <= i < |entries| && 0 <= j < |entries[i].synonyms|
        && lower(entries[i].word) == k && lower(entries[i].synonyms[j]) == s;
      if i < n {
        assert prefix[i] == entries[i];
      }
    }
    if lower(e.word) == k && s in LowerAll(e.synonyms, lower) {
      var j :| 0 <= j < |e.synonyms| && lower(e.synonyms[j]) == s;
      assert entries[n].synonyms[j] == e.synonyms[j];
    }
    if k !in Aggregate(prefix, lower) {
      AggregateKeys(prefix, lower, k);
    }
  }

  // ---- the enumeration order of the sets ------------------------------------

  predicate Distinct(s: seq<string>) {
    forall i, j | 0 <= i < j < |s| :: s[i] != s[j]
  }

  /** `order` lists each set of `dict` once over, in the order a lookup
      yields its elements. */
  predicate EnumeratedBy(order: map<string, seq<string>>, dict: Dictionary) {
    order.Keys == dict.Keys &&
    forall k | k in order :: Distinct(order[k]) && (set x | x in order[k]) == dict[k]
  }

  /** A list without repetitions is as long as the set of its elements. */
  lemma {:induction false} DistinctCardinality(s: seq<string>)
    requires Distinct(s)
    ensures |set x | x in s| == |s|
  {
    if |s| > 0 {
      DistinctCardinality(s[1..]);
      assert (set x | x in s) == {s[0]} + (set x | x in s[1..]);
      assert s[0] !in s[1..];
    }
  }
}
