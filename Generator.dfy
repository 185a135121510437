/** The variant generator: every way of replacing each token of a title by
    one of its candidates, enumerated with a single mixed-radix counter. */
module Generator {
  import opened Text
  import opened MixedRadix
  import Thesaurus

  /** The candidates for one token: the token as typed, then everything the
      lookup of its lowered form yields, in lookup order and without
      removing repetitions. */
  function CandidateList(token: string, synonymDictionary: map<string, seq<string>>, lower: string -> string): (c: seq<string>)
    ensures |c| >= 1 && c[0] == token
    ensures lower(token) !in synonymDictionary ==> c == [token]
  {
    [token] + if lower(token) in synonymDictionary then synonymDictionary[lower(token)] else []
  }

  /** One candidate list per token, in token order. */
  function Candidates(tokens: seq<string>, synonymDictionary: map<string, seq<string>>, lower: string -> string): seq<seq<string>> {
    seq(|tokens|, j requires 0 <= j < |tokens| => CandidateList(tokens[j], synonymDictionary, lower))
  }

  predicate NonEmptyLists(cands: seq<seq<string>>) {
    forall j | 0 <= j < |cands| :: |cands[j]| >= 1
  }

  /** The length of each candidate list: the bases of the counter. */
  function Counts(cands: seq<seq<string>>): seq<nat> {
    seq(|cands|, j requires 0 <= j < |cands| => |cands[j]|)
  }

  /** The candidates chosen by the index tuple `d`, in position order. */
  function Pick(cands: seq<seq<string>>, d: seq<nat>): seq<string>
    requires InRange(d, Counts(cands))
  {
    seq(|cands|, j requires 0 <= j < |cands| => cands[j][d[j]])
  }

  /** Variant number `i`: position `j` takes candidate `(i / divisor[j]) % count[j]`. */
  function Variant(cands: seq<seq<string>>, i: nat): string
    requires NonEmptyLists(cands)
  {
    Join(Pick(cands, Digits(i, Counts(cands))))
  }

  /** The weight of every position. */
  function DivisorList(r: seq<nat>): (ds: seq<nat>)
    requires Positive(r)
    ensures |ds| == |r| && forall j | 0 <= j < |r| :: ds[j] >= 1
  {
    seq(|r|, j requires 0 <= j < |r| => Divisor(r, j))
  }

  /** All variants, counter `0` first. */
  function Variants(cands: seq<seq<string>>): seq<string>
    requires NonEmptyLists(cands)
  {
    seq(Product(Counts(cands)), i requires 0 <= i => Variant(cands, i))
  }

  /** Appends `items` one by one, in order, to `list`. */
  method AddAll(list: seq<string>, items: seq<string>) returns (r: seq<string>)
    ensures r == list + items
  {
    r := list;
    for s := 0 to |items|
      invariant r == list + items[..s]
    {
      assert items[..s + 1] == items[..s] + [items[s]];
      r := r + [items[s]];
    }
    assert items[..|items|] == items;
  }

  /** Fills `partSynonyms` with the candidate list of every token and
      `divisors` with the weight of every position, and returns the product
      of all list lengths (`curMod` after the first loop).  A token the
      dictionary does not know keeps its one-element list and leaves
      `curMod` as it is. */
  method FillCandidateLists(parts: seq<string>, synonymDictionary: map<string, seq<string>>, lower: string -> string,
                            partSynonyms: array<seq<string>>, divisors: array<nat>) returns (curMod: int)
    requires partSynonyms.Length == |parts| && divisors.Length == |parts|
    modifies partSynonyms, divisors
    ensures partSynonyms[..] == Candidates(parts, synonymDictionary, lower)
    ensures divisors[..] == DivisorList(Counts(Candidates(parts, synonymDictionary, lower)))
    ensures curMod == Product(Counts(Candidates(parts, synonymDictionary, lower)))
  {
    ghost var cands := Candidates(parts, synonymDictionary, lower);
    ghost var counts := Counts(cands);
    ghost var ds := DivisorList(counts);
    curMod := 1;
    for index := 0 to |parts|
      invariant forall m | 0 <= m < index :: partSynonyms[m] == cands[m] && divisors[m] == ds[m]
      invariant curMod == Product(counts[..index])
    {
      var part := parts[index];
      var lowered := lower(part);
      ProductPrefix(counts, index);
      var synonymList := [part];

      if lowered !in synonymDictionary {
        assert cands[index] == synonymList && counts[index] == 1;
        assert curMod * 1 == curMod;
        partSynonyms[index] := synonymList;
        divisors[index] := curMod;
        continue;
      }

      synonymList := AddAll(synonymList, synonymDictionary[lowered]);
      partSynonyms[index] := synonymList;
      divisors[index] := curMod;
      curMod := curMod * |synonymList|;
    }
    assert counts[..|parts|] == counts;
  }

  /** Renders counter `i`: for each position, in order, a ' ' unless it is
      the first, then candidate `(i / divisors[j]) % count[j]`. */
  method RenderVariant(partSynonyms: array<seq<string>>, divisors: array<nat>, i: nat) returns (s: string)
    requires NonEmptyLists(partSynonyms[..])
    requires divisors[..] == DivisorList(Counts(partSynonyms[..]))
    ensures s == Variant(partSynonyms[..], i)
  {
    ghost var cands := partSynonyms[..];
    ghost var pick := Pick(cands, Digits(i, Counts(cands)));
    s := "";
    var first := true;
    for j := 0 to partSynonyms.Length
      invariant first <==> j == 0
      invariant s == Join(pick[..j])
    {
      var synonyms := partSynonyms[j];
      if !first {
        s := s + " ";
      }
      var k := (i / divisors[j]) % |synonyms|;
      s := s + synonyms[k];
      first := false;
      JoinSnoc(pick[..j], pick[j]);
      assert pick[..j + 1] == pick[..j] + [pick[j]];
    }
    assert pick[..|pick|] == pick;
  }

  /** Splits the title, builds the candidate lists and divisors, then
      renders every counter below the product of the list lengths. */
  method GetResults(title: string, synonymDictionary: map<string, seq<string>>, lower: string -> string)
    returns (results: array<string>)
    ensures fresh(results)
    ensures results.Length == Product(Counts(Candidates(Split(title), synonymDictionary, lower)))
    ensures results[..] == Variants(Candidates(Split(title), synonymDictionary, lower))
  {
    var parts := Split(title);
    var partSynonyms := new seq<string>[|parts|];
    var divisors := new nat[|parts|];
    var curMod := FillCandidateLists(parts, synonymDictionary, lower, partSynonyms, divisors);
    ghost var cands := partSynonyms[..];

    results := new string[curMod];
    for i := 0 to curMod
      invariant partSynonyms[..] == cands
      invariant divisors[..] == DivisorList(Counts(cands))
      invariant forall m | 0 <= m < i :: results[m] == Variant(cands, m)
    {
      results[i] := RenderVariant(partSynonyms, divisors, i);
    }
  }

  // ---- what the enumeration promises ---------------------------------------

  /** Position 0 has weight 1 and position `j + 1` the weight of position `j`
      times the length of list `j`. */
  lemma DivisorSteps(cands: seq<seq<string>>, j: nat)
    requires NonEmptyLists(cands) && j < |cands|
    ensures DivisorList(Counts(cands))[0] == 1
    ensures j + 1 < |cands| ==> DivisorList(Counts(cands))[j + 1] == DivisorList(Counts(cands))[j] * |cands[j]|
  {
    var r := Counts(cands);
    assert r[..0] == [];
    if j + 1 < |cands| {
      ProductPrefix(r, j);
    }
  }

  /** There is one variant per candidate tuple, and the counters run over all
      of them: the number of variants is the product of the list lengths,
      every tuple within the lists is rendered by some counter, and different
      counters choose different tuples. */
  lemma VariantsCover(cands: seq<seq<string>>, d: seq<nat>)
    requires NonEmptyLists(cands) && InRange(d, Counts(cands))
    ensures exists i: nat :: i < |Variants(cands)| && Digits(i, Counts(cands)) == d
                             && Variants(cands)[i] == Join(Pick(cands, d))
  {
    DigitsSurjective(d, Counts(cands));
  }

  lemma SelectionsDistinct(cands: seq<seq<string>>, i1: nat, i2: nat)
    requires NonEmptyLists(cands) && i1 < |Variants(cands)| && i2 < |Variants(cands)| && i1 != i2
    ensures Digits(i1, Counts(cands)) != Digits(i2, Counts(cands))
  {
    if Digits(i1, Counts(cands)) == Digits(i2, Counts(cands)) {
      DigitsInjective(i1, i2, Counts(cands));
    }
  }

  /** Position 0 varies fastest: the next counter moves position 0 on to its
      next candidate and keeps every other choice, unless position 0 is at
      its last candidate. */
  lemma NextVariant(cands: seq<seq<string>>, i: nat)
    requires NonEmptyLists(cands) && |cands| > 0 && i + 1 < |Variants(cands)|
    requires Digits(i, Counts(cands))[0] + 1 < |cands[0]|
    ensures Pick(cands, Digits(i + 1, Counts(cands)))
         == Pick(cands, Digits(i, Counts(cands)))[0 := cands[0][Digits(i, Counts(cands))[0] + 1]]
  {
    NextCounter(i, Counts(cands));
  }

  /** When every candidate is a single token, each variant splits back into
      the candidates it chose, one per position. */
  lemma VariantSplits(cands: seq<seq<string>>, i: nat)
    requires NonEmptyLists(cands)
    requires forall j, k | 0 <= j < |cands| && 0 <= k < |cands[j]| :: IsToken(cands[j][k])
    ensures Split(Variant(cands, i)) == Pick(cands, Digits(i, Counts(cands)))
  {
    var p := Pick(cands, Digits(i, Counts(cands)));
    forall x | x in p
      ensures IsToken(x)
    {
      var j :| 0 <= j < |p| && p[j] == x;
    }
    SplitJoin(p);
  }

  /** Counter 0 chooses the verbatim token everywhere: the first variant is
      the title with its runs of spaces normalised to single spaces, and it
      splits into the same tokens as the title. */
  lemma FirstVariant(title: string, synonymDictionary: map<string, seq<string>>, lower: string -> string)
    ensures |Variants(Candidates(Split(title), synonymDictionary, lower))| >= 1
    ensures Variants(Candidates(Split(title), synonymDictionary, lower))[0] == Join(Split(title))
    ensures Split(Variants(Candidates(Split(title), synonymDictionary, lower))[0]) == Split(title)
  {
    var parts := Split(title);
    var cands := Candidates(parts, synonymDictionary, lower);
    DigitsOfZero(Counts(cands));
    assert Pick(cands, Digits(0, Counts(cands))) == parts;
    SplitJoin(parts);
  }

  /** A title of spaces only (the empty title included) gives exactly one
      variant, the empty string, and it is the only title that does. */
  lemma EmptyTitle(title: string, synonymDictionary: map<string, seq<string>>, lower: string -> string)
    ensures Variants(Candidates(Split(title), synonymDictionary, lower)) == [""]
        <==> forall i | 0 <= i < |title| :: title[i] == ' '
  {
    var parts := Split(title);
    var vs := Variants(Candidates(parts, synonymDictionary, lower));
    FirstVariant(title, synonymDictionary, lower);
    SplitEmpty(title);
    if |parts| > 0 {
      assert parts[0] in parts;
      JoinNonEmpty(parts);
    } else {
      assert |vs| == 1;
    }
  }

  /** When no token is in the dictionary, the only variant is the normalised
      title. */
  lemma NoKnownWords(title: string, synonymDictionary: map<string, seq<string>>, lower: string -> string)
    requires forall t | t in Split(title) :: lower(t) !in synonymDictionary
    ensures Variants(Candidates(Split(title), synonymDictionary, lower)) == [Join(Split(title))]
  {
    var parts := Split(title);
    var cands := Candidates(parts, synonymDictionary, lower);
    forall j | 0 <= j < |cands|
      ensures Counts(cands)[j] == 1
    {
      assert parts[j] in parts;
    }
    ProductOfOnes(Counts(cands));
    FirstVariant(title, synonymDictionary, lower);
  }

  // ---- candidate lists drawn from the thesaurus ----------------------------

  /** With the lookup enumerating the aggregated thesaurus, a token is known
      exactly when its lowered form is the lowered headword of some entry;
      its list is then one longer than the set filed under it, and that set
      always holds the lowered token itself. */
  lemma KnownToken(entries: seq<Thesaurus.Entry>, lower: string -> string, order: map<string, seq<string>>, token: string)
    requires Thesaurus.EnumeratedBy(order, Thesaurus.Aggregate(entries, lower))
    ensures lower(token) in order <==> Thesaurus.IsHeadword(entries, lower, lower(token))
    ensures Thesaurus.IsHeadword(entries, lower, lower(token)) ==>
      |CandidateList(token, order, lower)| == 1 + |Thesaurus.Aggregate(entries, lower)[lower(token)]|
      && lower(token) in CandidateList(token, order, lower)[1..]
  {
    var k := lower(token);
    Thesaurus.AggregateKeys(entries, lower, k);
    if k in order {
      var c := CandidateList(token, order, lower);
      assert c[1..] == order[k];
      Thesaurus.DistinctCardinality(order[k]);
      Thesaurus.AggregateValues(entries, lower, k, k);
      assert k in (set x | x in order[k]);
    }
  }

  /** The candidates after the token are the lowered headword and the
      lowered synonyms of the entries filed under it, and all of those. */
  lemma CandidateFromThesaurus(entries: seq<Thesaurus.Entry>, lower: string -> string, order: map<string, seq<string>>,
                               token: string, s: string)
    requires Thesaurus.EnumeratedBy(order, Thesaurus.Aggregate(entries, lower))
    requires Thesaurus.IsHeadword(entries, lower, lower(token))
    ensures s in CandidateList(token, order, lower)[1..]
        <==> s == lower(token) || Thesaurus.SynonymOf(entries, lower, lower(token), s)
  {
    var k := lower(token);
    Thesaurus.AggregateKeys(entries, lower, k);
    Thesaurus.AggregateValues(entries, lower, k, s);
    assert CandidateList(token, order, lower)[1..] == order[k];
    assert s in order[k] <==> s in (set x | x in order[k]);
  }

  /** Nothing is deduplicated: a lower-case headword appears both as the
      verbatim token and again among its synonyms. */
  lemma LowercaseTokenRepeats(entries: seq<Thesaurus.Entry>, lower: string -> string, order: map<string, seq<string>>,
                              token: string)
    requires Thesaurus.EnumeratedBy(order, Thesaurus.Aggregate(entries, lower))
    requires Thesaurus.IsHeadword(entries, lower, token) && lower(token) == token
    ensures exists k | 1 <= k < |CandidateList(token, order, lower)| :: CandidateList(token, order, lower)[k] == token
  {
    KnownToken(entries, lower, order, token);
    var c := CandidateList(token, order, lower);
    var k :| 0 <= k < |c[1..]| && c[1..][k] == token;
    assert c[k + 1] == token;
  }
}
