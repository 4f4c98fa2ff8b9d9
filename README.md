# Wordle bot core, modelled in Dafny

This project models the three core pieces of the Azmart/Wordle bot and proves
properties about them:

- **The feedback evaluator** (`get_feedback` in `api_server.py`). It scores a
  guess against a hidden solution, one item per position, as correct, present
  or absent.
  - `Evaluator.GetFeedback` is the two-pass algorithm of the source, written
    imperatively. The first pass records exact matches in a five-slot `used`
    array. In the second pass, each remaining guess letter claims the first
    unclaimed solution slot that holds the same letter.
  - The method is proved equal to `Evaluator.Feedback`, a closed-form reference
    rule. A letter that is not an exact match is present iff its earlier
    non-matching copies in the guess are fewer than the non-matching copies of
    that letter in the solution.
  - The Wordle properties are proved on that rule:
    - the exact-match characterisation;
    - left-to-right consumption of repeated letters;
    - the multiplicity bound: correct plus present items for a letter never
      exceed its copies in the solution;
    - two worked examples.
- **The word list** (`word_utils.py`). It covers the row filter applied to the
  CSV, the fallback to the built-in list, `VALID_WORDS` and `is_valid_word`.
  Reading the file is not modelled: its outcome is an optional sequence of rows.
- **The candidate solver** (`class WordleSolver` in `wordle_solver.py`). It is
  modelled as a Dafny class whose fields are the candidate set and the filter
  cache.
  - `FilterWords` and `MakeGuess` update them in place.
  - `GetBestGuess` covers the shortcuts and the sampled minimax choice.
  - `RemainingWords` is the sorted snapshot.
  - The random draws (`random.sample`, `random.choice`) are parameters of
    `GetBestGuess`. Its precondition says exactly what those calls can return.

Two behaviours of the code are stated exactly as written:

- **The filter cache.** A caller might expect a repeated guess and feedback to
  re-filter the current candidates. Instead, a cache hit in `filter_words`
  returns the set stored when the entry was made, computed from the candidates
  of that time.
  - The ghost field `cacheSource` records which candidate set each entry came
    from.
  - `FilterWords` and `MakeGuess` state both the hit and the miss outcome.
  - `Solver.WordleSolver.CachedEntryIsFilter` proves that a stored set is the
    filter of its source candidates. It therefore equals a fresh filter when
    the candidates have not changed since.
  - `Solver.CacheRegrowth` exhibits the other case. A word that an earlier
    entry kept, and that a later guess removed, comes back as a candidate when
    the earlier guess and feedback are replayed.
- **The first-guess shortcut.** `get_best_guess` compares the candidate count
  with `len(WORDS)`, and that list may repeat a word.
  - `Solver.FirstGuessTest` proves that the shortcut fires exactly when every
    listed word is still a candidate and no word is listed twice.
  - So for a word list with repeats, the first-guess branch never fires.

The evaluator has no error path for words of the wrong length, and the solver
keeps no session state. A precondition on the word length stands in for a
length check.

## Model

| member | source | states |
|---|---|---|
| Evaluator.Feedback | api_server.py:27-54 | the feedback list has one item per guess position, and item i carries slot i and the guessed letter |
| Evaluator.GetFeedback | api_server.py:32-54 | the two-pass algorithm returns exactly the closed-form feedback `Feedback(guess, solution)` for five-letter words |
| Evaluator.Pass1Establishes | api_server.py:37-44 | after the first pass every exact match is correct and claimed, every other item is absent, and no non-matching slot is claimed |
| Evaluator.ClaimStep | api_server.py:47-52 | a non-matching letter that claims a free slot holding it becomes present, and the pass invariant holds one position further |
| Evaluator.NoClaimStep | api_server.py:47-52 | a non-matching letter with no free slot stays absent, and that is its final result |
| Evaluator.ExactStep | api_server.py:46-48 | the second pass skips exact matches without changing the invariant |
| Evaluator.Pass2Done | api_server.py:46-54 | once the second pass has covered all positions, the list equals the closed-form feedback |
| Evaluator.CorrectExactly | api_server.py:38-44 | an item is correct iff guess and solution agree at that position; any other item is present or absent |
| Evaluator.SelfMatch | api_server.py:38-41 | a word scored against itself is correct everywhere |
| Evaluator.CorrectCount | api_server.py:38-41 | the correct items for a letter are the positions where both words hold it |
| Evaluator.PresentCount | api_server.py:46-52 | the present items for a letter, up to any position, are the earlier non-matching guess copies capped by the non-matching supply in the solution |
| Evaluator.SupplySplit | api_server.py:35-41 | every copy of a letter in the solution is either an exact match or unmatched |
| Evaluator.MultiplicityBound | api_server.py:32-54 | for each letter, correct plus present items never exceed its copies in the solution |
| Evaluator.PresentWitness | api_server.py:49-51 | a present letter occurs in the solution at a slot that is not an exact match |
| Evaluator.AbsentExhausted | api_server.py:46-52 | a non-matching letter is absent iff the earlier present items already took every unmatched copy of it |
| Evaluator.LeftToRight | api_server.py:46-52 | of two non-matching copies of a letter, the later is present only if the earlier is |
| Evaluator.StareAgainstTrace | api_server.py:32-54 | "stare" against "trace" gives absent, present, correct, present, correct |
| Evaluator.SassyAgainstStare | api_server.py:32-54 | "sassy" against "stare": only the first s is credited, and the other two are absent |
| WordUtils.LowerChar | word_utils.py:22 | lower-casing a character leaves no upper-case ASCII letter |
| WordUtils.Lower | word_utils.py:22 | lower-casing keeps the length and gives a lower-case word |
| WordUtils.LowerKeepsLower | word_utils.py:22 | lower-casing a lower-case word changes nothing |
| WordUtils.LowerIdempotent | word_utils.py:35 | lower-casing twice is lower-casing once |
| WordUtils.IsValidWord | word_utils.py:33-35 | a valid word has exactly five characters |
| WordUtils.ValidIgnoresCase | word_utils.py:33-35 | a word is valid iff its lower-case form is |
| WordUtils.KeepRow | word_utils.py:22 | one row contributes at most one word |
| WordUtils.KeepWords | word_utils.py:22 | the comprehension yields no more words than rows |
| WordUtils.KeepWordsWellFormed | word_utils.py:22 | every kept word has five characters and is lower case |
| WordUtils.KeepWordsAppend | word_utils.py:22 | filtering a concatenation of rows concatenates the results, so row order is kept |
| WordUtils.KeepWordsMembers | word_utils.py:22 | a word is kept iff some non-empty row has a five-character first field that lower-cases to it |
| WordUtils.DefaultWordsWellFormed | word_utils.py:6-9 | the built-in words are five-letter lower-case words |
| WordUtils.LoadWords | word_utils.py:11-31 | the loaded list is never empty, and every word in it is five characters and lower case |
| WordUtils.ValidWords | word_utils.py:39 | `VALID_WORDS` holds exactly the members of the list |
| WordUtils.LoadedWordsAreValid | word_utils.py:33-39 | every loaded word passes `is_valid_word` against `VALID_WORDS` |
| Solver.Filter | wordle_solver.py:28-32 | the filter keeps only candidates whose simulated feedback equals the observed feedback |
| Solver.FilterShrinks | wordle_solver.py:28-32 | filtering never grows the candidate set |
| Solver.FilterKeepsSolution | wordle_solver.py:28-32 | the word the feedback was computed against survives the filter |
| Solver.FilterIdempotent | wordle_solver.py:28-32 | filtering twice with the same guess and feedback is filtering once |
| Solver.LiteralScenario | wordle_solver.py:28-32 | filtering "crane", "slate", "trace", "stare" and "train" by the feedback "stare" gets against "trace" leaves exactly "trace" |
| Solver.Bucket | wordle_solver.py:66-76 | a bucket holds only sampled solutions that give the guess that feedback |
| Solver.MaxOfIsMax | wordle_solver.py:79 | the maximum bounds every size and is one of them |
| Solver.WorstCaseIsMax | wordle_solver.py:64-79 | the worst case of a guess is the size of one of its buckets, and no bucket is larger |
| Solver.WorstCaseBounds | wordle_solver.py:64-79 | on a non-empty sample the worst case lies between 1 and the sample size |
| Solver.GroupIsBuckets | wordle_solver.py:66-76 | grouping the sample by feedback gives one entry per feedback that occurs, holding exactly the sampled solutions with that feedback |
| Solver.MaxBucketSize | wordle_solver.py:79 | no bucket is larger than the result, and some bucket has exactly that size whenever there is a bucket |
| Solver.BucketsMax | wordle_solver.py:66-79 | the largest group of a complete grouping of the sample is the worst case of the guess |
| Solver.LargestBucket | wordle_solver.py:66-79 | grouping the sample by feedback and taking the largest group yields exactly `WorstCase` |
| Solver.DuplicatesShrink | wordle_solver.py:47 | a list with a repeated word has fewer members than entries |
| Solver.DistinctElements | wordle_solver.py:47 | a list without repeats has as many members as entries |
| Solver.FirstGuessTest | wordle_solver.py:47-48 | the count test holds iff the candidates are all listed words and the list has no repeats |
| Solver.SingletonMember | wordle_solver.py:43-44 | the member drawn from a one-element set is that set's only member |
| Solver.TracksStep | wordle_solver.py:81-84 | a strictly smaller worst case takes over as the best so far, and any other is passed over, so ties keep the earlier guess |
| Solver.TracksFirstMin | wordle_solver.py:58-85 | once at least one guess is scored, the kept index is the first one with the smallest worst case |
| Solver.Minimax | wordle_solver.py:58-85 | the loop returns the first guess with the smallest worst case, and None only when there are no guesses |
| Solver.ScoresSnoc | wordle_solver.py:64-79 | scoring one more guess appends its worst case |
| Solver.BelowIrreflexive | wordle_solver.py:94 | no word sorts before itself |
| Solver.BelowTransitive | wordle_solver.py:94 | string order is transitive |
| Solver.BelowTotal | wordle_solver.py:94 | any two distinct words are ordered |
| Solver.LeastExists | wordle_solver.py:94 | every non-empty set of words has a least member |
| Solver.Least | wordle_solver.py:94 | the least member sorts before every other member |
| Solver.SortedOf | wordle_solver.py:94 | the sorted list is strictly ascending and has exactly the members of the set, each once |
| Solver.WordleSolver.constructor | wordle_solver.py:8-11 | a new solver has every listed word as a candidate, "stare" as first guess and an empty cache |
| Solver.WordleSolver.FilterWords | wordle_solver.py:18-36 | on a cache hit the stored set is returned and nothing changes; on a miss the result is the filter of the current candidates, and it is cached |
| Solver.WordleSolver.MakeGuess | wordle_solver.py:88-90 | the candidates become the result of `filter_words`, with the same cache behaviour |
| Solver.WordleSolver.CachedEntryIsFilter | wordle_solver.py:24-35 | a stored entry is the filter of the candidates it was computed from, and equals a fresh filter while the candidates are unchanged since |
| Solver.CacheRegrowth | wordle_solver.py:24-26 | replaying a cached guess and feedback brings back a word that the entry kept and a later guess removed, so the candidate set can grow |
| Solver.WordleSolver.GetBestGuess | wordle_solver.py:38-86 | "" for no candidates; the only candidate for one; the first guess when the count equals the list length; the random pick for two or three; otherwise the minimax choice over the samples |
| Solver.WordleSolver.RemainingWords | wordle_solver.py:92-94 | the snapshot is sorted ascending and holds exactly the candidates, each once |

## Left out

- `app.py` and the HTTP layer of `api_server.py` are not part of this model. That covers the FastAPI endpoints, `get_random_feedback`, `SEED_SOLUTIONS` and CORS. They are network and user-interface code around the core.
- Reading `wordle_merged.csv` is not modelled. Opening the file, parsing the CSV, catching exceptions and printing warnings are I/O. The file's outcome is a parameter: `None` when the file is missing or unreadable, otherwise its rows.
- `WORDS` and `VALID_WORDS` are module-level globals in the source. Here they are the constructor's parameter and the set of its members.
- The random draws are parameters of `GetBestGuess`. `random.sample` and `random.choice` are not modelled.
- `get_feedback_key` is not modelled as its own member. Its `lru_cache` and its `str(...)` conversion are left out. Buckets are keyed by the feedback list itself, which groups solutions the same way because `str` of these tuples is injective.
- Feedback results are the datatype `Outcome` rather than the strings "correct", "present" and "absent".
- Python's Unicode case mapping in `str.lower` is not modelled. `WordUtils.Lower` maps only the ASCII letters A-Z.
- Python's set iteration order is not modelled. `filter_words` and `next(iter(...))` visit set members in an order the model leaves unspecified.
- Sharing of set objects is not modelled. `filter_words` returns, and `make_guess` installs, the very set object held in the cache. The solver never mutates a set after building it, so sets are modelled as values.
- Evaluator.GetFeedback: requires both words to have exactly five characters. The source zips the two strings, which truncates to the shorter one. It also raises `IndexError` when both words are longer than five and agree at a position past the fifth. Neither of those two behaviours is modelled.
- Solver.WordleSolver.FilterWords: requires a five-letter guess, for the reason given for `Evaluator.GetFeedback`.
- Solver.WordleSolver.MakeGuess: requires a five-letter guess, for the same reason.
- Solver.WordleSolver.constructor: requires every listed word to have five letters. `WordUtils.LoadWords` guarantees this for every loaded list.
- Solver.Minimax: the minimax loop of `get_best_guess` is written as its own method. It calls `Solver.LargestBucket` for the bucket loop of each guess. `Solver.MaxBucketSize` computes the `max(...)` over the bucket sizes.
- Solver.MaxBucketSize: returns 0 for no buckets, where Python's `max` raises `ValueError`. `get_best_guess` never reaches it with an empty sample, because it samples at least four candidates.
