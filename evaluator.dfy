/**
 * The feedback evaluator: `get_feedback` classifies every letter of a guess
 * against a solution as correct, present or absent, in two passes over a
 * five-slot `used` array.
 *
 * `Feedback` is a closed-form statement of the same rule, independent of the
 * two passes: a letter that does not match in place is present exactly when
 * fewer unmatched copies of it occur earlier in the guess than there are
 * unmatched copies of it in the solution.  `GetFeedback` is the two-pass
 * algorithm and is proved to compute `Feedback`; the properties of the
 * evaluator are lemmas about `Feedback`.
 */
module Evaluator {

  /** The `result` strings "correct", "present" and "absent". */
  datatype Outcome = Correct | Present | Absent

  /** One entry of the returned list: position, guessed letter, outcome. */
  datatype FeedbackItem = FeedbackItem(slot: int, guess: char, result: Outcome)

  /** Board width: the size of the evaluator's `used` array. */
  const Width: nat := 5

  function Min(a: nat, b: nat): nat {
    if a <= b then a else b
  }

  // ---------------------------------------------------------------------
  // Counting letters by position
  // ---------------------------------------------------------------------

  /** Positions k < n where `word` holds `c` and differs from `other` there. */
  function Unmatched(word: string, other: string, c: char, n: nat): nat
    requires n <= |word| && n <= |other|
  {
    if n == 0 then 0
    else Unmatched(word, other, c, n - 1) + (if word[n - 1] == c && word[n - 1] != other[n - 1] then 1 else 0)
  }

  /** Positions k < n where both words hold `c`. */
  function Matched(word: string, other: string, c: char, n: nat): nat
    requires n <= |word| && n <= |other|
  {
    if n == 0 then 0
    else Matched(word, other, c, n - 1) + (if word[n - 1] == c && other[n - 1] == c then 1 else 0)
  }

  /** Items k < n of a feedback list that guessed `c` and got outcome `o`. */
  function CountOutcome(fb: seq<FeedbackItem>, c: char, o: Outcome, n: nat): nat
    requires n <= |fb|
  {
    if n == 0 then 0
    else CountOutcome(fb, c, o, n - 1) + (if fb[n - 1].guess == c && fb[n - 1].result == o then 1 else 0)
  }

  // ---------------------------------------------------------------------
  // The rule, in closed form
  // ---------------------------------------------------------------------

  /** Outcome of guess position i. */
  function ResultAt(guess: string, solution: string, i: nat): Outcome
    requires |guess| == |solution| && i < |guess|
  {
    if guess[i] == solution[i] then Correct
    else if Unmatched(guess, solution, guess[i], i) < Unmatched(solution, guess, guess[i], |solution|) then Present
    else Absent
  }

  /** The feedback list for `guess` against `solution`: one item per position. */
  function Feedback(guess: string, solution: string): (r: seq<FeedbackItem>)
    requires |guess| == |solution|
    ensures |r| == |guess|
    ensures forall i :: 0 <= i < |r| ==> r[i].slot == i && r[i].guess == guess[i]
  {
    seq(|guess|, i requires 0 <= i < |guess| => FeedbackItem(i, guess[i], ResultAt(guess, solution, i)))
  }

  // ---------------------------------------------------------------------
  // The two-pass algorithm
  // ---------------------------------------------------------------------

  /** Solution slots j < n that are claimed, hold `c` and are not exact matches. */
  function Claimed(guess: string, solution: string, used: seq<bool>, c: char, n: nat): nat
    requires n <= |used| && n <= |guess| && n <= |solution|
  {
    if n == 0 then 0
    else
      var here := if used[n - 1] && solution[n - 1] == c && solution[n - 1] != guess[n - 1] then 1 else 0;
      Claimed(guess, solution, used, c, n - 1) + here
  }

  /**
   * State of the second pass before position i: the list has its final shape,
   * exact matches are correct and claimed, positions before i hold their final
   * outcome, later non-matching positions are still absent, and for every
   * letter the claimed non-exact solution slots are exactly as many as the
   * earlier non-exact guess copies could take from the supply.
   */
  ghost predicate Pass2Inv(guess: string, solution: string, i: nat, fb: seq<FeedbackItem>, used: seq<bool>)
  {
    && |guess| == |solution| == |fb| == |used|
    && i <= |guess|
    && (forall k {:trigger fb[k]} :: 0 <= k < |fb| ==> fb[k].slot == k && fb[k].guess == guess[k])
    && (forall k {:trigger fb[k]} :: 0 <= k < |fb| && guess[k] == solution[k] ==> fb[k].result == Correct && used[k])
    && (forall k {:trigger fb[k]} :: i <= k < |fb| && guess[k] != solution[k] ==> fb[k].result == Absent)
    && (forall k {:trigger fb[k]} :: 0 <= k < i && guess[k] != solution[k] ==> fb[k].result == ResultAt(guess, solution, k))
    && (forall c :: Claimed(guess, solution, used, c, |used|)
                    == Min(Unmatched(solution, guess, c, |solution|), Unmatched(guess, solution, c, i)))
  }

  /**
   * `get_feedback`: the first pass appends one item per position, correct for
   * an exact match (claiming that solution slot) and absent otherwise; the
   * second pass lets each non-matching guess letter, left to right, claim the
   * first unclaimed solution slot holding the same letter and become present.
   */
  method GetFeedback(guess: string, solution: string) returns (feedback: seq<FeedbackItem>)
    requires |guess| == Width && |solution| == Width
    ensures feedback == Feedback(guess, solution)
  {
    feedback := [];
    var used := new bool[Width](_ => false);

    // First pass: exact matches.
    var i := 0;
    while i < Width
      invariant 0 <= i <= Width
      invariant |feedback| == i
      invariant forall k :: 0 <= k < i ==>
        feedback[k] == FeedbackItem(k, guess[k], if guess[k] == solution[k] then Correct else Absent)
      invariant forall k :: 0 <= k < Width ==> used[k] == (k < i && guess[k] == solution[k])
    {
      if guess[i] == solution[i] {
        feedback := feedback + [FeedbackItem(i, guess[i], Correct)];
        used[i] := true;
      } else {
        feedback := feedback + [FeedbackItem(i, guess[i], Absent)];
      }
      i := i + 1;
    }
    Pass1Establishes(guess, solution, feedback, used[..]);

    // Second pass: present letters.
    i := 0;
    while i < Width
      invariant 0 <= i <= Width
      invariant Pass2Inv(guess, solution, i, feedback, used[..])
    {
      var g := guess[i];
      if g != solution[i] {
        ghost var fb0, used0 := feedback, used[..];
        ghost var claimed := false;
        var j := 0;
        while j < Width
          invariant 0 <= j <= Width
          invariant !claimed && feedback == fb0 && used[..] == used0
          invariant forall k :: 0 <= k < j ==> !(solution[k] == g && !used[k])
        {
          if g == solution[j] && !used[j] {
            feedback := feedback[i := FeedbackItem(i, g, Present)];
            used[j] := true;
            ClaimStep(guess, solution, i, fb0, used0, j);
            assert used[..] == used0[j := true];
            claimed := true;
            break;
          }
          j := j + 1;
        }
        if !claimed {
          NoClaimStep(guess, solution, i, feedback, used[..]);
        }
      } else {
        ExactStep(guess, solution, i, feedback, used[..]);
      }
      i := i + 1;
    }
    Pass2Done(guess, solution, feedback, used[..]);
  }

  // ---------------------------------------------------------------------
  // Lemmas behind the two passes
  // ---------------------------------------------------------------------

  lemma {:induction false} ClaimedNone(guess: string, solution: string, used: seq<bool>, c: char, n: nat)
    requires n <= |used| && n <= |guess| && n <= |solution|
    requires forall j :: 0 <= j < n && used[j] ==> guess[j] == solution[j]
    ensures Claimed(guess, solution, used, c, n) == 0
  {
    if n > 0 {
      ClaimedNone(guess, solution, used, c, n - 1);
    }
  }

  /** Claimed slots never outnumber the unmatched supply, and fall short of it while one is free. */
  lemma {:induction false} ClaimedBound(guess: string, solution: string, used: seq<bool>, c: char, n: nat)
    requires n <= |used| && n <= |guess| && n <= |solution|
    ensures Claimed(guess, solution, used, c, n) <= Unmatched(solution, guess, c, n)
    ensures (exists j :: 0 <= j < n && solution[j] == c && solution[j] != guess[j] && !used[j])
            ==> Claimed(guess, solution, used, c, n) < Unmatched(solution, guess, c, n)
  {
    if n > 0 {
      ClaimedBound(guess, solution, used, c, n - 1);
    }
  }

  /** When every unmatched copy of `c` is claimed, the claims equal the supply. */
  lemma {:induction false} ClaimedAll(guess: string, solution: string, used: seq<bool>, c: char, n: nat)
    requires n <= |used| && n <= |guess| && n <= |solution|
    requires forall j :: 0 <= j < n && solution[j] == c && solution[j] != guess[j] ==> used[j]
    ensures Claimed(guess, solution, used, c, n) == Unmatched(solution, guess, c, n)
  {
    if n > 0 {
      ClaimedAll(guess, solution, used, c, n - 1);
    }
  }

  /** Claiming slot j adds one claim for the letter held there, if it is unmatched. */
  lemma {:induction false} ClaimedUpdate(guess: string, solution: string, used: seq<bool>, c: char, n: nat, j: nat)
    requires n <= |used| && n <= |guess| && n <= |solution|
    requires j < |used| && !used[j]
    ensures Claimed(guess, solution, used[j := true], c, n)
            == Claimed(guess, solution, used, c, n)
               + (if j < n && solution[j] == c && solution[j] != guess[j] then 1 else 0)
  {
    if n > 0 {
      ClaimedUpdate(guess, solution, used, c, n - 1, j);
    }
  }

  lemma Pass1Establishes(guess: string, solution: string, fb: seq<FeedbackItem>, used: seq<bool>)
    requires |guess| == |solution| == |fb| == |used|
    requires forall k :: 0 <= k < |fb| ==>
      fb[k] == FeedbackItem(k, guess[k], if guess[k] == solution[k] then Correct else Absent)
    requires forall k :: 0 <= k < |used| ==> used[k] == (guess[k] == solution[k])
    ensures Pass2Inv(guess, solution, 0, fb, used)
  {
    forall c
      ensures Claimed(guess, solution, used, c, |used|) == 0
    {
      ClaimedNone(guess, solution, used, c, |used|);
    }
  }

  lemma ClaimStep(guess: string, solution: string, i: nat, fb: seq<FeedbackItem>, used: seq<bool>, j: nat)
    requires Pass2Inv(guess, solution, i, fb, used)
    requires i < |guess| && guess[i] != solution[i]
    requires j < |used| && solution[j] == guess[i] && !used[j]
    ensures Pass2Inv(guess, solution, i + 1, fb[i := FeedbackItem(i, guess[i], Present)], used[j := true])
  {
    var L := guess[i];
    var n := |used|;
    assert fb[j].slot == j;  // brings in the invariant at slot j: it is no exact match
    ClaimedBound(guess, solution, used, L, n);
    assert Claimed(guess, solution, used, L, n) == Min(Unmatched(solution, guess, L, n), Unmatched(guess, solution, L, i));
    assert ResultAt(guess, solution, i) == Present;
    var fb2 := fb[i := FeedbackItem(i, L, Present)];
    forall k | 0 <= k < |fb2|
      ensures fb2[k].slot == k && fb2[k].guess == guess[k]
      ensures guess[k] == solution[k] ==> fb2[k].result == Correct && used[j := true][k]
      ensures i + 1 <= k && guess[k] != solution[k] ==> fb2[k].result == Absent
      ensures k < i + 1 && guess[k] != solution[k] ==> fb2[k].result == ResultAt(guess, solution, k)
    {
      assert fb[k].slot == k;
    }
    forall c
      ensures Claimed(guess, solution, used[j := true], c, n)
              == Min(Unmatched(solution, guess, c, n), Unmatched(guess, solution, c, i + 1))
    {
      ClaimedUpdate(guess, solution, used, c, n, j);
      assert Unmatched(guess, solution, c, i + 1)
             == Unmatched(guess, solution, c, i) + (if c == L then 1 else 0);
    }
  }

  lemma NoClaimStep(guess: string, solution: string, i: nat, fb: seq<FeedbackItem>, used: seq<bool>)
    requires Pass2Inv(guess, solution, i, fb, used)
    requires i < |guess| && guess[i] != solution[i]
    requires forall j :: 0 <= j < |used| ==> !(solution[j] == guess[i] && !used[j])
    ensures Pass2Inv(guess, solution, i + 1, fb, used)
  {
    var L := guess[i];
    ClaimedAll(guess, solution, used, L, |used|);
    assert Claimed(guess, solution, used, L, |used|) == Min(Unmatched(solution, guess, L, |used|), Unmatched(guess, solution, L, i));
    assert ResultAt(guess, solution, i) == Absent;
    forall c
      ensures Claimed(guess, solution, used, c, |used|)
              == Min(Unmatched(solution, guess, c, |used|), Unmatched(guess, solution, c, i + 1))
    {
      assert Unmatched(guess, solution, c, i + 1)
             == Unmatched(guess, solution, c, i) + (if c == L then 1 else 0);
    }
  }

  lemma ExactStep(guess: string, solution: string, i: nat, fb: seq<FeedbackItem>, used: seq<bool>)
    requires Pass2Inv(guess, solution, i, fb, used)
    requires i < |guess| && guess[i] == solution[i]
    ensures Pass2Inv(guess, solution, i + 1, fb, used)
  {
    forall c
      ensures Unmatched(guess, solution, c, i + 1) == Unmatched(guess, solution, c, i)
    {
    }
  }

  lemma Pass2Done(guess: string, solution: string, fb: seq<FeedbackItem>, used: seq<bool>)
    requires Pass2Inv(guess, solution, |guess|, fb, used)
    ensures fb == Feedback(guess, solution)
  {
  }

  // ---------------------------------------------------------------------
  // Properties of the evaluator
  // ---------------------------------------------------------------------

  /** Item i is correct exactly when the letters agree in place; any other item is present or absent. */
  lemma CorrectExactly(guess: string, solution: string, i: nat)
    requires |guess| == |solution| && i < |guess|
    ensures Feedback(guess, solution)[i].result == Correct <==> guess[i] == solution[i]
    ensures guess[i] != solution[i] ==> Feedback(guess, solution)[i].result in {Present, Absent}
  {
  }

  /** A word scored against itself is correct everywhere. */
  lemma SelfMatch(word: string)
    ensures forall i :: 0 <= i < |word| ==> Feedback(word, word)[i].result == Correct
  {
  }

  /** The correct items for `c` are the positions where both words hold `c`. */
  lemma {:induction false} CorrectCount(guess: string, solution: string, c: char, n: nat)
    requires |guess| == |solution| && n <= |guess|
    ensures CountOutcome(Feedback(guess, solution), c, Correct, n) == Matched(guess, solution, c, n)
  {
    if n > 0 {
      CorrectCount(guess, solution, c, n - 1);
    }
  }

  /**
   * Among the first n items, the present ones for `c` are as many as the
   * unmatched guess copies of `c` so far, capped by the unmatched supply of `c`
   * in the solution.
   */
  lemma {:induction false} PresentCount(guess: string, solution: string, c: char, n: nat)
    requires |guess| == |solution| && n <= |guess|
    ensures CountOutcome(Feedback(guess, solution), c, Present, n)
            == Min(Unmatched(solution, guess, c, |solution|), Unmatched(guess, solution, c, n))
  {
    if n > 0 {
      PresentCount(guess, solution, c, n - 1);
    }
  }

  /** Every copy of `c` in a prefix of the solution is either matched in place or unmatched. */
  lemma {:induction false} SupplySplit(guess: string, solution: string, c: char, n: nat)
    requires |guess| == |solution| && n <= |solution|
    ensures Matched(guess, solution, c, n) + Unmatched(solution, guess, c, n) == multiset(solution[..n])[c]
  {
    if n > 0 {
      SupplySplit(guess, solution, c, n - 1);
      assert solution[..n] == solution[..n - 1] + [solution[n - 1]];
    }
  }

  /**
   * Multiplicity bound: for any letter, the correct and present items that
   * guessed it are no more than its copies in the solution.
   */
  lemma MultiplicityBound(guess: string, solution: string, c: char)
    requires |guess| == |solution|
    ensures var r := Feedback(guess, solution);
            CountOutcome(r, c, Correct, |r|) + CountOutcome(r, c, Present, |r|) <= multiset(solution)[c]
  {
    CorrectCount(guess, solution, c, |guess|);
    PresentCount(guess, solution, c, |guess|);
    SupplySplit(guess, solution, c, |solution|);
    assert solution[..|solution|] == solution;
  }

  lemma {:induction false} UnmatchedWitness(word: string, other: string, c: char, n: nat)
    requires n <= |word| && n <= |other|
    requires Unmatched(word, other, c, n) > 0
    ensures exists j :: 0 <= j < n && word[j] == c && word[j] != other[j]
  {
    if word[n - 1] != c || word[n - 1] == other[n - 1] {
      UnmatchedWitness(word, other, c, n - 1);
    }
  }

  lemma {:induction false} UnmatchedMonotone(word: string, other: string, c: char, m: nat, n: nat)
    requires m <= n <= |word| && n <= |other|
    ensures Unmatched(word, other, c, m) <= Unmatched(word, other, c, n)
  {
    if m < n {
      UnmatchedMonotone(word, other, c, m, n - 1);
    }
  }

  /** A present letter occurs in the solution at a slot that is not an exact match. */
  lemma PresentWitness(guess: string, solution: string, i: nat)
    requires |guess| == |solution| && i < |guess|
    requires Feedback(guess, solution)[i].result == Present
    ensures exists j :: 0 <= j < |solution| && solution[j] == guess[i] && solution[j] != guess[j]
  {
    UnmatchedWitness(solution, guess, guess[i], |solution|);
  }

  /**
   * A non-matching letter is absent only when the items before it already
   * took every unmatched copy of it in the solution as present.
   */
  lemma AbsentExhausted(guess: string, solution: string, i: nat)
    requires |guess| == |solution| && i < |guess| && guess[i] != solution[i]
    ensures var r := Feedback(guess, solution);
            r[i].result == Absent <==>
            CountOutcome(r, guess[i], Present, i) == Unmatched(solution, guess, guess[i], |solution|)
  {
    PresentCount(guess, solution, guess[i], i);
  }

  /** Left to right: of two non-matching copies of a letter, the later is present only if the earlier is. */
  lemma LeftToRight(guess: string, solution: string, i: nat, k: nat)
    requires |guess| == |solution| && i < k < |guess|
    requires guess[i] == guess[k] && guess[i] != solution[i] && guess[k] != solution[k]
    requires Feedback(guess, solution)[k].result == Present
    ensures Feedback(guess, solution)[i].result == Present
  {
    UnmatchedMonotone(guess, solution, guess[i], i, k);
  }

  /** "stare" against "trace": absent, present, correct, present, correct. */
  lemma StareAgainstTrace()
    ensures Feedback("stare", "trace")
            == [FeedbackItem(0, 's', Absent), FeedbackItem(1, 't', Present), FeedbackItem(2, 'a', Correct),
                FeedbackItem(3, 'r', Present), FeedbackItem(4, 'e', Correct)]
  {
    var g, s := "stare", "trace";
    assert Unmatched(g, s, 's', 0) == 0 && Unmatched(s, g, 's', 5) == 0;
    assert Unmatched(g, s, 't', 1) == 0 && Unmatched(s, g, 't', 5) == 1;
    assert Unmatched(g, s, 'r', 3) == 0 && Unmatched(s, g, 'r', 5) == 1;
    var r := Feedback(g, s);
    assert r[0].result == Absent && r[1].result == Present && r[3].result == Present;
  }

  /** "sassy" against "stare": one of the three s's is granted, the other two are absent. */
  lemma SassyAgainstStare()
    ensures Feedback("sassy", "stare")
            == [FeedbackItem(0, 's', Correct), FeedbackItem(1, 'a', Present), FeedbackItem(2, 's', Absent),
                FeedbackItem(3, 's', Absent), FeedbackItem(4, 'y', Absent)]
  {
    var g, s := "sassy", "stare";
    assert Unmatched(g, s, 'a', 1) == 0 && Unmatched(s, g, 'a', 5) == 1;
    assert Unmatched(s, g, 's', 5) == 0;
    assert Unmatched(s, g, 'y', 5) == 0;
    var r := Feedback(g, s);
    assert r[1].result == Present && r[2].result == Absent && r[3].result == Absent && r[4].result == Absent;
  }
}
