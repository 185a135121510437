# SynonymFinder in Dafny

SynonymFinder reads a thesaurus and, for a title the user types, lists every
phrase obtained by replacing each word of the title, independently, by the
word itself or one of its synonyms. The core is `GetResults` in `Program.cs`:

1. It splits the title on `' '` and drops empty pieces.
2. It builds one candidate list per token: the verbatim token, then every
   synonym of its lower-cased form.
3. It gives position `j` the weight `divisors[j]`, the product of the
   lengths of the earlier lists.
4. For each counter `i` below the product of all lengths, it joins
   candidate `(i / divisors[j]) % count[j]` of every position with single
   spaces.

Two more pieces of `Program.cs` are modelled:

- the loop that folds the thesaurus entries into a dictionary from lowered
  headword to the set of lowered synonyms;
- the in-place Fisher–Yates `Shuffle` that puts the results in random order.

The files:

- `Text.dfy` (module `Text`): splitting on `' '` and joining with single
  spaces, and how the two relate.
- `MixedRadix.dfy` (module `MixedRadix`):
  - the product of the bases;
  - the divisor formula `Digits`;
  - an independent recursive reference `Decode`/`Encode`;
  - proofs that the counters below the product and the digit tuples below
    the bases correspond one to one, position 0 fastest.
- `Thesaurus.dfy` (module `Thesaurus`): the `Entry` record,
  `BuildDictionary` (the nested loop of `Main`) proved against the fold
  `Aggregate`, and what the keys and sets hold.
- `Generator.dfy` (module `Generator`): `GetResults` over arrays, split into
  the two loops of the source and the inner join loop, each proved against a
  specification function. It also holds the lemmas about the variants and
  about candidate lists drawn from the aggregated thesaurus.
- `Shuffling.dfy` (module `Shuffling`): `Shuffle` over an array, proved
  against the recursive specification `Shuffled`, with the permutation
  lemmas.
- `Search.dfy` (module `Search`): the step of the console loop that
  generates and then shuffles.
- `Int32Overflow.dfy` (module `Int32Overflow`): `curMod` as written, a
  32-bit integer that wraps around (see "## Findings").

Library behaviour the model takes as parameters:

- `ToLowerInvariant` is the parameter `lower: string -> string`. Nothing is
  assumed about it.
- A lookup of the dictionary enumerates a `HashSet` in an order .NET does
  not specify. So `GetResults` takes the dictionary as a
  `map<string, seq<string>>` that lists each key's synonyms in lookup order.
  The predicate `Thesaurus.EnumeratedBy` ties such a map to the dictionary of
  sets that `BuildDictionary` builds: same keys, each set listed once, with
  no repetition.
- The random number generator of `Shuffle` is the sequence `draws` of its
  answers. Each answer lies in the range `Random.Next(n + 1)` promises.

Counts are unbounded `nat`s. That is the intended behaviour. The 32-bit
wrap-around of the source is modelled separately as a finding.

Behaviour of the code a reader may not expect, which the model follows:

- A title with no tokens (empty, or spaces only) gives one result, the empty
  string, not an empty list: `curMod` stays 1. See `Generator.EmptyTitle`.
- The split is on the character `' '` only. A tab or a newline stays inside
  a token.
- A candidate may itself contain spaces, so a result need not have as many
  words as the title. `Generator.VariantSplits` gives the word structure
  when every candidate is a single token.
- The overflow of the product is not detected. It wraps (see
  "## Findings").

## Model

| member | source | states |
|---|---|---|
| Text.TakeWord | Program.cs:100 | the longest prefix without a space: a prefix of the input, free of spaces, followed by a space or the end, and non-empty when the input starts with a non-space |
| Text.Split | Program.cs:100 | every piece of the split title is non-empty and holds no ' ' |
| Text.RemoveSpaces | Program.cs:100 | the title with every ' ' taken out contains no ' ' |
| Text.JoinSnoc | Program.cs:131-139 | the join loop's step: one more piece adds a ' ' and the piece, except for the first piece (the `first` flag) |
| Text.SplitSpace | Program.cs:100 | a ' ' separates tokens: the split of two strings joined by a space is the split of the first followed by the split of the second, so runs of spaces and spaces at either end produce no pieces |
| Text.SplitJoin | Program.cs:100 | splitting a space-joined list of tokens gives back exactly those tokens |
| Text.NormalizeIdempotent | Program.cs:100 | joining the tokens and splitting again gives the same tokens |
| Text.SplitEmpty | Program.cs:100 | a title yields no token if and only if every character is ' ' |
| Text.SplitKeepsCharacters | Program.cs:100 | the tokens, concatenated, are the title with its spaces removed: splitting loses only spaces and keeps order |
| Text.JoinNonEmpty | Program.cs:128-141 | joining at least one token gives a non-empty string |
| MixedRadix.Product | Program.cs:104-121 | the product of positive bases (list lengths) is at least 1 |
| MixedRadix.Divisor | Program.cs:120 | the weight of a position, the product of the earlier bases, is at least 1 |
| MixedRadix.Digits | Program.cs:136 | every index `(i / divisor[j]) % count[j]` lies in `[0, count[j])` |
| MixedRadix.ProductSnoc | Program.cs:121 | multiplying in one more list length gives the product of the extended bases |
| MixedRadix.ProductPrefix | Program.cs:120-121 | the product of the first `j + 1` bases is the product of the first `j` times base `j` |
| MixedRadix.ProductOfOnes | Program.cs:111-115 | positions of length 1 (words not in the dictionary) leave the product at 1 |
| MixedRadix.EncodeBelow | Program.cs:124-126 | every digit tuple below the bases encodes to a counter below the product |
| MixedRadix.EncodeDecode | Program.cs:136 | decoding a counter below the product and encoding the digits gives the counter back |
| MixedRadix.DecodeEncode | Program.cs:136 | encoding a tuple below the bases and decoding gives the tuple back |
| MixedRadix.DigitsDecode | Program.cs:120-136 | the divisor formula yields the same digits as the recursive reference decoding |
| MixedRadix.DigitsInjective | Program.cs:126-136 | two counters below the product with the same digits are the same counter |
| MixedRadix.DigitsSurjective | Program.cs:126-136 | every tuple below the bases is the digits of some counter below the product |
| MixedRadix.NextCounter | Program.cs:126-136 | position 0 varies fastest: the next counter raises only digit 0 unless that digit is at its last value |
| MixedRadix.DigitsOfZero | Program.cs:126-136 | counter 0 picks index 0 at every position |
| Thesaurus.BuildDictionary | Program.cs:44-56 | the nested loop builds exactly the fold `Aggregate` of the entries in order |
| Thesaurus.AggregateKeys | Program.cs:44-51 | a word is a key if and only if it is the lowered headword of some entry |
| Thesaurus.AggregateValues | Program.cs:47-55 | the set under a key holds the key itself and the lowered synonyms of every entry filed under that key, and nothing else |
| Thesaurus.DistinctCardinality | Program.cs:111-121 | a set enumerated without repetition has as many elements as the enumeration |
| Generator.CandidateList | Program.cs:107-118 | a candidate list is non-empty and starts with the verbatim token; a token whose lowered form is not in the dictionary gets exactly `[token]` |
| Generator.DivisorList | Program.cs:113-120 | one weight per position, each at least 1 |
| Generator.AddAll | Program.cs:117-118 | appending the lookup's synonyms one by one gives the list followed by all of them, in lookup order |
| Generator.FillCandidateLists | Program.cs:104-122 | after the first loop `partSynonyms` holds every token's candidate list, `divisors[j]` the product of the earlier lengths, and `curMod` the product of all lengths |
| Generator.RenderVariant | Program.cs:128-141 | the inner loop builds the ' '-join of candidate `(i / divisors[j]) % count[j]` of every position, in position order |
| Generator.GetResults | Program.cs:98-145 | the result array has one entry per counter below the product of the lengths, and entry `i` is variant `i` |
| Generator.DivisorSteps | Program.cs:104-121 | `divisors[0] == 1`, and each next divisor is the previous times the previous list's length |
| Generator.VariantsCover | Program.cs:124-142 | every choice of one candidate per position is rendered by some counter below the number of results |
| Generator.SelectionsDistinct | Program.cs:124-142 | different counters choose different candidate tuples |
| Generator.NextVariant | Program.cs:126-142 | the next result changes only position 0's choice, to its next candidate, unless position 0 is at its last candidate |
| Generator.VariantSplits | Program.cs:128-141 | when every candidate is one token, each result splits into exactly the candidates it chose |
| Generator.FirstVariant | Program.cs:109-141 | there is at least one result; result 0 is the tokens joined by single spaces, and it splits into the title's tokens |
| Generator.EmptyTitle | Program.cs:100-141 | the results are exactly `[""]` if and only if the title consists of spaces only |
| Generator.NoKnownWords | Program.cs:111-141 | when no token is in the dictionary, the only result is the normalised title |
| Generator.KnownToken | Program.cs:111-118 | with the lookup enumerating the built dictionary, a token is known if and only if its lowered form is a lowered headword; its list is then one longer than the set and contains the lowered token |
| Generator.CandidateFromThesaurus | Program.cs:117-118 | the candidates after the token are exactly the lowered headword and the lowered synonyms of the entries filed under it |
| Generator.LowercaseTokenRepeats | Program.cs:109-118 | a lower-case headword appears again after itself in its own list: nothing is deduplicated |
| Shuffling.Swap | Program.cs:155 | the exchange puts each of the two elements in the other's place and leaves every other position alone |
| Shuffling.Shuffled | Program.cs:148-157 | the shuffle keeps the length |
| Shuffling.DrawsTail | Program.cs:153-154 | after one draw, the remaining draws fit the range of the remaining calls |
| Shuffling.SwapPermutes | Program.cs:155 | an exchange keeps the multiset of elements |
| Shuffling.ShuffledPermutes | Program.cs:150-156 | the shuffled list is a permutation of the original (same multiset) |
| Shuffling.ShuffledKeepsTail | Program.cs:150-156 | positions from `n` on are not moved by the rest of the shuffle |
| Shuffling.IdentityDraws | Program.cs:152-155 | a generator that always answers `n` leaves the list as it was |
| Shuffling.Shuffle | Program.cs:148-157 | the in-place loop leaves exactly the specified shuffle `Shuffled` of the input, hence a permutation of it (same multiset); its loop invariant keeps every position from `n` on at its final element once `n` has passed it |
| Search.NewResults | Program.cs:82-83 | the shuffled results are a permutation of all variants of the title |
| Int32Overflow.Wrap | Program.cs:121 | 32-bit wrap-around: the value is in the `int` range, congruent to the input modulo 2^32, and unchanged when the input fits |
| Int32Overflow.ProductOfPrefix | Program.cs:121 | with positive lengths the running product never decreases |
| Int32Overflow.AgreesWhileItFits | Program.cs:104-121 | while the product of the lengths fits in an `int`, the wrapping `curMod` equals it |
| Int32Overflow.EightBySixteen | Program.cs:121 | for eight lists of sixteen the product is 2^32, but the wrapping `curMod` is 0 |
| Int32Overflow.OverflowExample | Program.cs:100-124 | a title of eight words with fifteen synonyms each has 2^32 variants, while `curMod` as written, the length of the result array, is 0 |

## Left out

- Locating the thesaurus file by walking up the directories (Program.cs:23-32): file-system I/O.
- Reading the JSON lines into `Entry` records (Program.cs:34-42): a foreign library. The model takes the entries as a `seq<Entry>`. An entry with a `null` `Word` (which Program.cs:47 dereferences) or a `null` synonym list (Program.cs:54) makes the source throw; neither is modelled, since a `seq<Entry>` of strings has no null.
- The console loop (Program.cs:58-95): prompts, "quit", and pages of 50 results are console I/O. The one step with logic, generate then shuffle (Program.cs:82-83), is `Search.NewResults`.
- `Random` (Program.cs:147, 154): randomness. Its answers are the parameter `draws`, and the model assumes only their range.
- `ToLowerInvariant` and the iteration order of `HashSet`: library behaviour. They are a parameter and a given sequence (see above).
- `StringBuilder` (Program.cs:125-141): the builder is a string value that `Clear` resets and `Append` extends.
- Thesaurus.BuildDictionary: the source stores a new `HashSet` in the dictionary and then adds to the same object through its alias. Sets are values in the model, so the extended set is stored under the key again after the inner loop. The resulting dictionary is the same.
- Generator.GetResults: counts with unbounded integers. The 32-bit wrap-around of `curMod` is modelled separately, in `Int32Overflow`.
- `divisors` holds `nat`s rather than 32-bit integers, for the same reason.

## Findings

| source | as written | input that shows it | evidently intended | confidence | as-written member | corrected member |
|---|---|---|---|---|---|---|
| Program.cs:121-124 | `curMod *= partSynonyms[index].Count` on a 32-bit `int` without overflow checking, so the product of the list lengths wraps around | the title "a a a a a a a a" with "a" having fifteen synonyms: 2^32 variants, but `curMod` wraps to 0 and the result array is empty | the result array has one entry per candidate tuple, that is, the product of the list lengths (or the overflow is reported) | not executed | Int32Overflow.OverflowExample | Generator.GetResults |
