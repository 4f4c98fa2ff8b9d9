/**
 * The candidate solver: a `WordleSolver` keeps the set of words still
 * consistent with the feedback seen so far, filters it after every guess
 * (memoising the result per guess and feedback), and picks the next guess by
 * a sampled minimax rule.  The random draws are parameters of the methods.
 */
module Solver {
  import opened Wrappers
  import opened Evaluator
  import WordUtils

  /** Key of the filter cache: the guess and the observed feedback. */
  type CacheKey = (string, seq<FeedbackItem>)

  /** Every word of the set has the board width. */
  predicate AllWidth(words: set<string>) {
    forall w :: w in words ==> |w| == Width
  }

  // ---------------------------------------------------------------------
  // Filtering
  // ---------------------------------------------------------------------

  /** The candidates whose simulated feedback for `guess` is exactly `feedback`. */
  function Filter(candidates: set<string>, guess: string, feedback: seq<FeedbackItem>): (r: set<string>)
    requires AllWidth(candidates) && |guess| == Width
    ensures r <= candidates && AllWidth(r)
    ensures forall w :: w in r ==> Feedback(guess, w) == feedback
  {
    set w | w in candidates && Feedback(guess, w) == feedback
  }

  /** Filtering never adds a word, so it never grows the candidate set. */
  lemma FilterShrinks(candidates: set<string>, guess: string, feedback: seq<FeedbackItem>)
    requires AllWidth(candidates) && |guess| == Width
    ensures |Filter(candidates, guess, feedback)| <= |candidates|
  {
    SubsetCardinality(Filter(candidates, guess, feedback), candidates);
  }

  /** Soundness: the word the feedback was computed against survives the filter. */
  lemma FilterKeepsSolution(candidates: set<string>, guess: string, solution: string)
    requires AllWidth(candidates) && |guess| == Width
    requires solution in candidates
    ensures solution in Filter(candidates, guess, Feedback(guess, solution))
  {
  }

  /** Filtering again with the same guess and feedback changes nothing. */
  lemma FilterIdempotent(candidates: set<string>, guess: string, feedback: seq<FeedbackItem>)
    requires AllWidth(candidates) && |guess| == Width
    ensures Filter(Filter(candidates, guess, feedback), guess, feedback) == Filter(candidates, guess, feedback)
  {
  }

  lemma {:induction false} SubsetCardinality(a: set<string>, b: set<string>)
    requires a <= b
    ensures |a| <= |b|
    decreases |b|
  {
    if b != {} {
      var x :| x in b;
      SubsetCardinality(a - {x}, b - {x});
    }
  }

  // ---------------------------------------------------------------------
  // Buckets and the worst case of a guess
  // ---------------------------------------------------------------------

  /** The sampled solutions that answer `guess` with `key`. */
  function Bucket(guess: string, sample: seq<string>, key: seq<FeedbackItem>): (b: set<string>)
    requires |guess| == Width && forall x :: x in sample ==> |x| == Width
    ensures forall x :: x in b ==> x in sample && Feedback(guess, x) == key
  {
    set x | x in sample && Feedback(guess, x) == key
  }

  /** Largest of a sequence of sizes; 0 for none. */
  function MaxOf(sizes: seq<nat>): nat {
    if sizes == [] then 0
    else
      var last := sizes[|sizes| - 1];
      var before := MaxOf(sizes[..|sizes| - 1]);
      if last > before then last else before
  }

  lemma {:induction false} MaxOfIsMax(sizes: seq<nat>)
    ensures forall k :: 0 <= k < |sizes| ==> sizes[k] <= MaxOf(sizes)
    ensures sizes != [] ==> exists k :: 0 <= k < |sizes| && sizes[k] == MaxOf(sizes)
  {
    if sizes != [] {
      var init := sizes[..|sizes| - 1];
      MaxOfIsMax(init);
      assert forall k :: 0 <= k < |init| ==> init[k] == sizes[k];
      if init != [] && sizes[|sizes| - 1] <= MaxOf(init) {
        var k :| 0 <= k < |init| && init[k] == MaxOf(init);
        assert sizes[k] == MaxOf(sizes);
      } else {
        assert sizes[|sizes| - 1] == MaxOf(sizes);
      }
    }
  }

  /** Size of the bucket of every sampled solution, in sample order. */
  function BucketSizes(guess: string, sample: seq<string>): (sizes: seq<nat>)
    requires |guess| == Width && forall x :: x in sample ==> |x| == Width
    ensures |sizes| == |sample|
  {
    seq(|sample|, k requires 0 <= k < |sample| => |Bucket(guess, sample, Feedback(guess, sample[k]))|)
  }

  /** Worst case of `guess` over the sample: the size of its largest bucket. */
  function WorstCase(guess: string, sample: seq<string>): nat
    requires |guess| == Width && forall x :: x in sample ==> |x| == Width
  {
    MaxOf(BucketSizes(guess, sample))
  }

  /** The worst case is the size of some bucket, and no bucket is larger. */
  lemma WorstCaseIsMax(guess: string, sample: seq<string>)
    requires |guess| == Width && forall x :: x in sample ==> |x| == Width
    ensures forall x :: x in sample ==> |Bucket(guess, sample, Feedback(guess, x))| <= WorstCase(guess, sample)
    ensures sample != [] ==>
      exists x :: x in sample && |Bucket(guess, sample, Feedback(guess, x))| == WorstCase(guess, sample)
  {
    var sizes := BucketSizes(guess, sample);
    MaxOfIsMax(sizes);
    forall x | x in sample
      ensures |Bucket(guess, sample, Feedback(guess, x))| <= WorstCase(guess, sample)
    {
      var k :| 0 <= k < |sample| && sample[k] == x;
      assert sizes[k] <= MaxOf(sizes);
    }
    if sample != [] {
      var k :| 0 <= k < |sizes| && sizes[k] == MaxOf(sizes);
      assert sample[k] in sample;
    }
  }

  /** The members of a sequence are no more than its length. */
  lemma {:induction false} ElementsBound(xs: seq<string>)
    ensures |set x | x in xs| <= |xs|
  {
    if xs != [] {
      ElementsBound(xs[1..]);
      assert (set x | x in xs) == {xs[0]} + (set x | x in xs[1..]);
    }
  }

  /** On a non-empty sample, the worst case of any guess lies between 1 and the sample size. */
  lemma WorstCaseBounds(guess: string, sample: seq<string>)
    requires |guess| == Width && forall x :: x in sample ==> |x| == Width
    requires sample != []
    ensures 1 <= WorstCase(guess, sample) <= |sample|
  {
    WorstCaseIsMax(guess, sample);
    var x :| x in sample && |Bucket(guess, sample, Feedback(guess, x))| == WorstCase(guess, sample);
    var b := Bucket(guess, sample, Feedback(guess, x));
    assert x in b;
    SubsetCardinality({x}, b);
    SubsetCardinality(b, set y | y in sample);
    ElementsBound(sample);
  }

  /** A list with a repeated word has fewer members than entries. */
  lemma {:induction false} DuplicatesShrink(xs: seq<string>)
    requires exists i, j :: 0 <= i < j < |xs| && xs[i] == xs[j]
    ensures |set x | x in xs| < |xs|
  {
    var i, j :| 0 <= i < j < |xs| && xs[i] == xs[j];
    var tail := xs[1..];
    assert (set x | x in xs) == {xs[0]} + (set x | x in tail);
    ElementsBound(tail);
    if i == 0 {
      assert xs[0] == tail[j - 1];
      assert (set x | x in xs) == (set x | x in tail);
    } else {
      assert tail[i - 1] == tail[j - 1];
      DuplicatesShrink(tail);
    }
  }

  /**
   * The first-guess test of `get_best_guess` compares the number of
   * candidates with the length of the word list, repeats included: it holds
   * exactly when every listed word is still a candidate and no word is listed
   * twice.
   */
  lemma FirstGuessTest(words: seq<string>, possible: set<string>)
    requires possible <= WordUtils.ValidWords(words)
    ensures |possible| == |words| <==>
            && possible == WordUtils.ValidWords(words)
            && forall i, j :: 0 <= i < j < |words| ==> words[i] != words[j]
  {
    var all := WordUtils.ValidWords(words);
    assert all == set x | x in words;
    ElementsBound(words);
    if possible != all {
      var x :| x in all && x !in possible;
      SubsetCardinality(possible, all - {x});
    }
    if exists i, j :: 0 <= i < j < |words| && words[i] == words[j] {
      DuplicatesShrink(words);
    } else {
      DistinctElements(words);
    }
  }

  /** A list without repeats has as many members as entries. */
  lemma {:induction false} DistinctElements(xs: seq<string>)
    requires forall i, j :: 0 <= i < j < |xs| ==> xs[i] != xs[j]
    ensures |set x | x in xs| == |xs|
  {
    if xs != [] {
      var tail := xs[1..];
      DistinctElements(tail);
      assert (set x | x in xs) == {xs[0]} + (set x | x in tail);
      assert xs[0] !in tail;
    }
  }

  /**
   * The dictionary of buckets after grouping `xs` in order: each word is added
   * to the set under its feedback, which is created empty on first use.
   */
  function Group(guess: string, xs: seq<string>): map<seq<FeedbackItem>, set<string>>
    requires |guess| == Width && forall x :: x in xs ==> |x| == Width
  {
    if xs == [] then map[]
    else
      var before := Group(guess, xs[..|xs| - 1]);
      var x := xs[|xs| - 1];
      var key := Feedback(guess, x);
      before[key := (if key in before then before[key] else {}) + {x}]
  }

  /** Grouping yields one entry per feedback that occurs, holding exactly its bucket. */
  lemma {:induction false} GroupIsBuckets(guess: string, xs: seq<string>)
    requires |guess| == Width && forall x :: x in xs ==> |x| == Width
    ensures forall key :: key in Group(guess, xs) <==> exists x :: x in xs && Feedback(guess, x) == key
    ensures forall key :: key in Group(guess, xs) ==> Group(guess, xs)[key] == Bucket(guess, xs, key)
  {
    if xs != [] {
      var init := xs[..|xs| - 1];
      var last := xs[|xs| - 1];
      GroupIsBuckets(guess, init);
      assert xs == init + [last];
      forall key | key in Group(guess, xs)
        ensures Group(guess, xs)[key] == Bucket(guess, xs, key)
      {
        assert Bucket(guess, xs, key)
               == Bucket(guess, init, key) + (if Feedback(guess, last) == key then {last} else {});
      }
    }
  }

  /**
   * The bucket loop of `get_best_guess` for one guess: group the sampled
   * solutions by the feedback the guess gets against them, then take the size
   * of the largest group.
   */
  method LargestBucket(guess: string, sample: seq<string>) returns (largest: nat)
    requires |guess| == Width && forall x :: x in sample ==> |x| == Width
    ensures largest == WorstCase(guess, sample)
  {
    var buckets: map<seq<FeedbackItem>, set<string>> := map[];
    var k := 0;
    while k < |sample|
      invariant 0 <= k <= |sample|
      invariant buckets == Group(guess, sample[..k])
    {
      var solution := sample[k];
      var feedback := GetFeedback(guess, solution);
      if feedback !in buckets {
        buckets := buckets[feedback := {}];
      }
      buckets := buckets[feedback := buckets[feedback] + {solution}];
      assert sample[..k + 1][..k] == sample[..k];
      k := k + 1;
    }
    assert sample[..|sample|] == sample;
    GroupIsBuckets(guess, sample);

    largest := MaxBucketSize(buckets);
    BucketsMax(guess, sample, buckets, largest);
  }

  /**
   * `max(len(bucket) for bucket in buckets.values())`: no bucket is larger
   * than the result, and some bucket has that size; 0 for no buckets.
   */
  method MaxBucketSize(buckets: map<seq<FeedbackItem>, set<string>>) returns (largest: nat)
    ensures forall key :: key in buckets ==> |buckets[key]| <= largest
    ensures largest == 0 || exists key :: key in buckets && |buckets[key]| == largest
    ensures buckets != map[] ==> exists key :: key in buckets && |buckets[key]| == largest
  {
    largest := 0;
    var rest := buckets.Keys;
    while rest != {}
      invariant rest <= buckets.Keys
      invariant forall key :: key in buckets && key !in rest ==> |buckets[key]| <= largest
      invariant rest != buckets.Keys ==> exists key :: key in buckets && key !in rest && |buckets[key]| == largest
      invariant largest == 0 || exists key :: key in buckets && key !in rest && |buckets[key]| == largest
      decreases rest
    {
      var key :| key in rest;
      if |buckets[key]| > largest {
        largest := |buckets[key]|;
      }
      rest := rest - {key};
    }
  }

  /** The largest group of a complete grouping of the sample is the worst case. */
  lemma BucketsMax(guess: string, sample: seq<string>, buckets: map<seq<FeedbackItem>, set<string>>, largest: nat)
    requires |guess| == Width && forall x :: x in sample ==> |x| == Width
    requires forall key :: key in buckets <==> exists x :: x in sample && Feedback(guess, x) == key
    requires forall key :: key in buckets ==> buckets[key] == Bucket(guess, sample, key)
    requires forall key :: key in buckets ==> |buckets[key]| <= largest
    requires largest == 0 || exists key :: key in buckets && |buckets[key]| == largest
    ensures largest == WorstCase(guess, sample)
  {
    WorstCaseIsMax(guess, sample);
    if sample != [] {
      var x :| x in sample && |Bucket(guess, sample, Feedback(guess, x))| == WorstCase(guess, sample);
      assert Feedback(guess, x) in buckets;
    }
    if largest != 0 {
      var key :| key in buckets && |buckets[key]| == largest;
      var x :| x in sample && Feedback(guess, x) == key;
    }
  }

  /** A one-element set holds nothing but its member. */
  lemma SingletonMember(s: set<string>, x: string)
    requires |s| == 1 && x in s
    ensures s == {x}
  {
    if y :| y in s && y != x {
      SubsetCardinality({x, y}, s);
    }
  }

  /** `xs` is a draw of `random.sample(list(pool), k)`: k distinct members of the pool. */
  predicate IsSample(xs: seq<string>, pool: set<string>, k: nat) {
    && |xs| == k
    && (forall i :: 0 <= i < |xs| ==> xs[i] in pool)
    && (forall i, j :: 0 <= i < j < |xs| ==> xs[i] != xs[j])
  }

  /** Index i holds the smallest score, and every earlier score is strictly larger. */
  predicate IsFirstMin(scores: seq<nat>, i: nat) {
    && i < |scores|
    && (forall j :: 0 <= j < |scores| ==> scores[i] <= scores[j])
    && (forall j :: 0 <= j < i ==> scores[i] < scores[j])
  }

  /** The worst case of every guess, in sample order. */
  function Scores(guesses: seq<string>, sample: seq<string>): (scores: seq<nat>)
    requires forall g :: g in guesses ==> |g| == Width
    requires forall x :: x in sample ==> |x| == Width
    ensures |scores| == |guesses|
  {
    seq(|guesses|, j requires 0 <= j < |guesses| => WorstCase(guesses[j], sample))
  }

  /**
   * The minimax loop of `get_best_guess`: for each guess in sample order,
   * compute its largest bucket over the sampled solutions and keep the guess
   * only when that is strictly smaller than the best so far.  None when there
   * is no guess to score.
   */
  method Minimax(guesses: seq<string>, sample: seq<string>) returns (bestGuess: Option<string>)
    requires forall g :: g in guesses ==> |g| == Width
    requires forall x :: x in sample ==> |x| == Width
    requires sample != []
    ensures bestGuess.None? <==> guesses == []
    ensures bestGuess.Some? ==>
              exists i: nat :: IsFirstMin(Scores(guesses, sample), i) && bestGuess.value == guesses[i]
  {
    bestGuess := None;
    var minMax: nat := |sample| + 1;  // above every bucket size: stands for float('inf')
    ghost var seen: seq<nat> := [];   // the worst case of each guess scored so far
    ghost var bestIndex: nat := 0;
    var i := 0;
    while i < |guesses|
      invariant 0 <= i <= |guesses|
      invariant seen == Scores(guesses[..i], sample)
      invariant Tracks(seen, bestIndex, minMax, |sample| + 1)
      invariant bestGuess == if i == 0 then None else Some(guesses[bestIndex])
    {
      var guess := guesses[i];
      var maxBucketSize := LargestBucket(guess, sample);
      WorstCaseBounds(guess, sample);
      ScoresSnoc(guesses, sample, i);
      TracksStep(seen, bestIndex, minMax, |sample| + 1, maxBucketSize);
      seen := seen + [maxBucketSize];
      if maxBucketSize < minMax {
        minMax := maxBucketSize;
        bestGuess := Some(guess);
        bestIndex := i;
      }
      i := i + 1;
    }
    assert guesses[..i] == guesses;
    if i > 0 {
      TracksFirstMin(seen, bestIndex, minMax, |sample| + 1);
    }
  }

  /**
   * The running minimum over the scores `seen`: `inf` before any score,
   * otherwise the score at `best`, which no score undercuts and every earlier
   * score exceeds.
   */
  ghost predicate Tracks(seen: seq<nat>, best: nat, minMax: nat, inf: nat) {
    && (seen == [] ==> best == 0 && minMax == inf)
    && (seen != [] ==> best < |seen| && minMax == seen[best])
    && (forall j :: 0 <= j < |seen| ==> minMax <= seen[j])
    && (forall j :: 0 <= j < best ==> minMax < seen[j])
  }

  /** One step of the loop: a strictly smaller score takes over, any other is passed over. */
  lemma TracksStep(seen: seq<nat>, best: nat, minMax: nat, inf: nat, score: nat)
    requires Tracks(seen, best, minMax, inf) && score < inf
    ensures score < minMax ==> Tracks(seen + [score], |seen|, score, inf)
    ensures score >= minMax ==> Tracks(seen + [score], best, minMax, inf)
  {
  }

  /** After at least one score, the tracked index is the first minimum. */
  lemma TracksFirstMin(seen: seq<nat>, best: nat, minMax: nat, inf: nat)
    requires Tracks(seen, best, minMax, inf) && seen != []
    ensures IsFirstMin(seen, best)
  {
  }

  lemma ScoresSnoc(guesses: seq<string>, sample: seq<string>, i: nat)
    requires forall g :: g in guesses ==> |g| == Width
    requires forall x :: x in sample ==> |x| == Width
    requires i < |guesses|
    ensures Scores(guesses[..i + 1], sample) == Scores(guesses[..i], sample) + [WorstCase(guesses[i], sample)]
  {
    assert guesses[..i + 1] == guesses[..i] + [guesses[i]];
  }

  // ---------------------------------------------------------------------
  // Ordering of words, for the sorted snapshot
  // ---------------------------------------------------------------------

  /** Python's `<` on strings: lexicographic by code point, a proper prefix first. */
  predicate Below(a: string, b: string) {
    if a == [] then b != []
    else if b == [] then false
    else if a[0] != b[0] then a[0] < b[0]
    else Below(a[1..], b[1..])
  }

  lemma {:induction false} BelowIrreflexive(a: string)
    ensures !Below(a, a)
  {
    if a != [] {
      BelowIrreflexive(a[1..]);
    }
  }

  lemma {:induction false} BelowTransitive(a: string, b: string, c: string)
    requires Below(a, b) && Below(b, c)
    ensures Below(a, c)
  {
    if a != [] && b != [] && c != [] && a[0] == b[0] == c[0] {
      BelowTransitive(a[1..], b[1..], c[1..]);
    }
  }

  lemma {:induction false} BelowTotal(a: string, b: string)
    ensures a == b || Below(a, b) || Below(b, a)
  {
    if a != [] && b != [] && a[0] == b[0] {
      BelowTotal(a[1..], b[1..]);
      if a[1..] == b[1..] {
        assert a == [a[0]] + a[1..] && b == [b[0]] + b[1..];
      }
    }
  }

  /** Strictly ascending: sorted, and therefore without duplicates. */
  predicate Ascending(words: seq<string>) {
    forall i, j :: 0 <= i < j < |words| ==> Below(words[i], words[j])
  }

  /** Every non-empty finite set of words has a least member. */
  lemma {:induction false} LeastExists(s: set<string>)
    requires s != {}
    ensures exists m :: m in s && forall x :: x in s ==> !Below(x, m)
    decreases |s|
  {
    var y :| y in s;
    BelowIrreflexive(y);
    if s == {y} {
      assert forall x :: x in s ==> x == y;
    } else {
      var rest := s - {y};
      LeastExists(rest);
      var m :| m in rest && forall x :: x in rest ==> !Below(x, m);
      if Below(y, m) {
        forall x | x in s
          ensures !Below(x, y)
        {
          if x != y && Below(x, y) {
            assert x in rest;
            BelowTransitive(x, y, m);
          }
        }
        assert y in s;
      } else {
        forall x | x in s
          ensures !Below(x, m)
        {
          if x != y {
            assert x in rest;
          }
        }
        assert m in s;
      }
    }
  }

  /** The least member of a non-empty set of words. */
  function Least(s: set<string>): (m: string)
    requires s != {}
    ensures m in s
    ensures forall x :: x in s && x != m ==> Below(m, x)
  {
    LeastExists(s);
    assert forall a, b :: a != b ==> Below(a, b) || Below(b, a) by {
      forall a, b ensures a == b || Below(a, b) || Below(b, a) {
        BelowTotal(a, b);
      }
    }
    var m :| m in s && forall x :: x in s ==> !Below(x, m);
    m
  }

  /** `sorted(list(s))`. */
  function SortedOf(s: set<string>): (r: seq<string>)
    ensures Ascending(r)
    ensures forall w :: w in r <==> w in s
    ensures |r| == |s|
    decreases |s|
  {
    if s == {} then []
    else
      var m := Least(s);
      var rest := SortedOf(s - {m});
      assert forall k :: 0 <= k < |rest| ==> Below(m, rest[k]) by {
        forall k | 0 <= k < |rest| ensures Below(m, rest[k]) {
          assert rest[k] in s - {m};
        }
      }
      [m] + rest
  }

  // ---------------------------------------------------------------------
  // The solver
  // ---------------------------------------------------------------------

  class WordleSolver {
    /** `WORDS`: the loaded word list, duplicates included. */
    const words: seq<string>
    /** `VALID_WORDS`: the members of `WORDS`. */
    const validWords: set<string>
    const firstGuess: string

    var possibleWords: set<string>
    var feedbackCache: map<CacheKey, set<string>>
    /** For each cache entry, the candidate set it was computed from. */
    ghost var cacheSource: map<CacheKey, set<string>>

    ghost predicate Valid()
      reads this
    {
      && |firstGuess| == Width
      && validWords == WordUtils.ValidWords(words)
      && AllWidth(validWords)
      && possibleWords <= validWords
      && feedbackCache.Keys == cacheSource.Keys
      && (forall key :: key in cacheSource ==> cacheSource[key] <= validWords)
      && (forall key :: key in feedbackCache ==>
            |key.0| == Width && feedbackCache[key] == Filter(cacheSource[key], key.0, key.1))
    }

    /** `__init__`: every word of the list is a candidate; the cache is empty. */
    constructor (words: seq<string>)
      requires forall w :: w in words ==> |w| == Width
      ensures Valid()
      ensures this.words == words && validWords == WordUtils.ValidWords(words)
      ensures possibleWords == validWords
      ensures firstGuess == "stare"
      ensures feedbackCache == map[]
    {
      this.words := words;
      validWords := WordUtils.ValidWords(words);
      firstGuess := "stare";
      possibleWords := WordUtils.ValidWords(words);
      feedbackCache := map[];
      cacheSource := map[];
    }

    /**
     * `filter_words`: a cached result for the same guess and feedback is
     * returned as stored, whatever the candidates are now; otherwise the
     * candidates are filtered and the result is cached.
     */
    method FilterWords(guess: string, feedback: seq<FeedbackItem>) returns (r: set<string>)
      requires Valid() && |guess| == Width
      modifies this`feedbackCache, this`cacheSource
      ensures Valid()
      ensures (guess, feedback) in old(feedbackCache) ==>
                && r == old(feedbackCache)[(guess, feedback)]
                && feedbackCache == old(feedbackCache)
                && cacheSource == old(cacheSource)
      ensures (guess, feedback) !in old(feedbackCache) ==>
                && r == Filter(possibleWords, guess, feedback)
                && feedbackCache == old(feedbackCache)[(guess, feedback) := r]
                && cacheSource == old(cacheSource)[(guess, feedback) := possibleWords]
    {
      var key := (guess, feedback);
      if key in feedbackCache {
        return feedbackCache[key];
      }
      var candidates := possibleWords;
      var newPossible := {};
      var rest := candidates;
      while rest != {}
        invariant rest <= candidates
        invariant newPossible == Filter(candidates - rest, guess, feedback)
        invariant feedbackCache == old(feedbackCache) && cacheSource == old(cacheSource)
        decreases rest
      {
        var word :| word in rest;
        var wordFeedback := GetFeedback(guess, word);
        if wordFeedback == feedback {
          newPossible := newPossible + {word};
        }
        rest := rest - {word};
      }
      assert candidates - rest == candidates;
      feedbackCache := feedbackCache[key := newPossible];
      cacheSource := cacheSource[key := candidates];
      r := newPossible;
    }

    /** `make_guess`: the candidates become the filter result. */
    method MakeGuess(guess: string, feedback: seq<FeedbackItem>)
      requires Valid() && |guess| == Width
      modifies this
      ensures Valid()
      ensures (guess, feedback) in old(feedbackCache) ==>
                && possibleWords == old(feedbackCache)[(guess, feedback)]
                && feedbackCache == old(feedbackCache)
                && cacheSource == old(cacheSource)
      ensures (guess, feedback) !in old(feedbackCache) ==>
                && possibleWords == Filter(old(possibleWords), guess, feedback)
                && feedbackCache == old(feedbackCache)[(guess, feedback) := possibleWords]
                && cacheSource == old(cacheSource)[(guess, feedback) := old(possibleWords)]
    {
      possibleWords := FilterWords(guess, feedback);
    }

    /**
     * A stored entry is the filter of the candidates it was computed from, so
     * it equals a fresh filter while the candidates are still those.
     */
    lemma CachedEntryIsFilter(key: CacheKey)
      requires Valid() && key in feedbackCache
      ensures |key.0| == Width && AllWidth(cacheSource[key])
      ensures feedbackCache[key] == Filter(cacheSource[key], key.0, key.1)
      ensures cacheSource[key] == possibleWords ==> feedbackCache[key] == Filter(possibleWords, key.0, key.1)
    {
    }

    /**
     * `get_best_guess`, with the random draws given: `solutionSample` and
     * `guessSample` are the two `random.sample` calls, `pick` is what
     * `random.choice` over the candidates returns.
     */
    method GetBestGuess(solutionSample: seq<string>, guessSample: seq<string>, pick: string) returns (best: string)
      requires Valid()
      requires IsSample(solutionSample, possibleWords, Min(100, |possibleWords|))
      requires IsSample(guessSample, validWords, Min(100, |validWords|))
      requires possibleWords != {} ==> pick in possibleWords
      ensures possibleWords == {} ==> best == ""
      ensures |possibleWords| == 1 ==> possibleWords == {best}
      ensures |possibleWords| > 1 && |possibleWords| == |words| ==> best == firstGuess
      ensures 1 < |possibleWords| <= 3 && |possibleWords| != |words| ==> best == pick && best in possibleWords
      ensures |possibleWords| > 3 && |possibleWords| != |words| ==>
                exists i: nat :: IsFirstMin(Scores(guessSample, solutionSample), i) && best == guessSample[i]
    {
      if possibleWords == {} {
        return "";
      }
      if |possibleWords| == 1 {
        var only :| only in possibleWords;
        SingletonMember(possibleWords, only);
        return only;
      }
      if |possibleWords| == |words| {
        return firstGuess;
      }
      if |possibleWords| <= 3 {
        return pick;
      }

      assert |possibleWords| > 3 && |possibleWords| != |words|;
      var sampleWords := solutionSample;
      assert forall x :: x in sampleWords ==> |x| == Width;
      assert guessSample != [] by {
        var w :| w in possibleWords;
        assert w in validWords;
      }
      var bestGuess := Minimax(guessSample, sampleWords);

      // best_guess or random.choice(...)
      if bestGuess.Some? && bestGuess.value != "" {
        best := bestGuess.value;
      } else {
        best := pick;
      }
    }

    /** `get_remaining_words`: the candidates, sorted ascending. */
    function RemainingWords(): (r: seq<string>)
      reads this
      ensures Ascending(r)
      ensures forall w :: w in r <==> w in possibleWords
      ensures |r| == |possibleWords|
    {
      SortedOf(possibleWords)
    }
  }

  /**
   * The candidate set can grow back: a word kept by an earlier cache entry
   * and removed since returns when that guess and feedback are replayed.
   */
  method CacheRegrowth(s: WordleSolver, guess: string, feedback: seq<FeedbackItem>, w: string)
    requires s.Valid() && |guess| == Width
    requires (guess, feedback) in s.feedbackCache
    requires w in s.cacheSource[(guess, feedback)] && w !in s.possibleWords && Feedback(guess, w) == feedback
    modifies s
    ensures s.Valid()
    ensures w in s.possibleWords && w !in old(s.possibleWords)
  {
    s.CachedEntryIsFilter((guess, feedback));
    s.MakeGuess(guess, feedback);
  }

  // ---------------------------------------------------------------------
  // A worked filtering step
  // ---------------------------------------------------------------------

  /** A word whose outcome at position i differs from that of "trace" gets other feedback for "stare". */
  lemma RejectedAt(w: string, i: nat)
    requires |w| == Width && i < Width
    requires ResultAt("stare", w, i) != ResultAt("stare", "trace", i)
    ensures Feedback("stare", w) != Feedback("stare", "trace")
  {
    assert Feedback("stare", w)[i] != Feedback("stare", "trace")[i];
  }

  /** "crane" has no t: the t of "stare" is absent, not present as against "trace". */
  lemma CraneRejected()
    ensures Feedback("stare", "crane") != Feedback("stare", "trace")
  {
    assert ResultAt("stare", "trace", 1) == Present by {
      assert Unmatched("stare", "trace", 't', 1) == 0 && Unmatched("trace", "stare", 't', 5) == 1;
    }
    assert ResultAt("stare", "crane", 1) == Absent by {
      assert Unmatched("crane", "stare", 't', 5) == 0;
    }
    RejectedAt("crane", 1);
  }

  /** "slate" starts with s: the s of "stare" is correct, not absent as against "trace". */
  lemma SlateRejected()
    ensures Feedback("stare", "slate") != Feedback("stare", "trace")
  {
    assert ResultAt("stare", "trace", 0) == Absent by {
      assert Unmatched("trace", "stare", 's', 5) == 0;
    }
    RejectedAt("slate", 0);
  }

  /** "stare" itself: its t is correct, not present as against "trace". */
  lemma StareRejected()
    ensures Feedback("stare", "stare") != Feedback("stare", "trace")
  {
    assert ResultAt("stare", "trace", 1) == Present by {
      assert Unmatched("stare", "trace", 't', 1) == 0 && Unmatched("trace", "stare", 't', 5) == 1;
    }
    RejectedAt("stare", 1);
  }

  /** "train" has no e: the e of "stare" is absent, not correct as against "trace". */
  lemma TrainRejected()
    ensures Feedback("stare", "train") != Feedback("stare", "trace")
  {
    assert ResultAt("stare", "train", 4) == Absent by {
      assert Unmatched("train", "stare", 'e', 5) == 0;
    }
    RejectedAt("train", 4);
  }

  /**
   * After guessing "stare" against the hidden word "trace", only "trace" is
   * left of "crane", "slate", "trace", "stare" and "train".
   */
  lemma LiteralScenario()
    ensures Filter({"crane", "slate", "trace", "stare", "train"}, "stare", Feedback("stare", "trace")) == {"trace"}
  {
    CraneRejected();
    SlateRejected();
    StareRejected();
    TrainRejected();
  }
}
