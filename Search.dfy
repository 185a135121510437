/** One search of the console loop: the variants of a title, shuffled. */
module Search {
  import opened Text
  import opened Generator
  import opened Shuffling

  /** Generates every variant of `title` and shuffles them in place with the
      answers `draws` of the random number generator: the result holds each
      variant exactly as often as the enumeration produces it. */
  method NewResults(title: string, synonymDictionary: map<string, seq<string>>, lower: string -> string, draws: seq<nat>)
    returns (results: array<string>)
    requires Draws(draws, |Variants(Candidates(Split(title), synonymDictionary, lower))|)
    ensures fresh(results) && results.Length == |Variants(Candidates(Split(title), synonymDictionary, lower))|
    ensures results[..] == Shuffled(Variants(Candidates(Split(title), synonymDictionary, lower)), results.Length, draws)
    ensures multiset(results[..]) == multiset(Variants(Candidates(Split(title), synonymDictionary, lower)))
  {
    results := GetResults(title, synonymDictionary, lower);
    Shuffle(results, draws);
  }
}
