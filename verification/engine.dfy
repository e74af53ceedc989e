/** The scoring engine: feedback for one guess against a secret code.

    A code is a sequence of integers. The alphabet is 0..7; digits outside it
    still take part in the positional comparison but are ignored when the
    per-digit overlap is tallied. */
module Engine {
  import opened Types

  /** Largest digit of the alphabet; the alphabet is 0..MaxDigit. */
  const MaxDigit := 7

  predicate InAlphabet(d: int) {
    0 <= d <= MaxDigit
  }

  predicate AllInAlphabet(s: seq<int>) {
    forall i :: 0 <= i < |s| ==> InAlphabet(s[i])
  }

  /** Feedback for one guess, in the order of the source's result tuple:
      (correct numbers, correct positions). */
  datatype Feedback = Feedback(correctNumbers: nat, correctPositions: nat)

  /** Either the feedback, or the error raised for an empty secret or a guess
      whose length differs from the secret's. */
  datatype ScoreResult = Scored(feedback: Feedback) | InvalidLengths

  /** The set of indices at which secret and guess agree. */
  ghost function MatchingIndices(secret: seq<int>, guess: seq<int>): set<nat>
    requires |secret| == |guess|
  {
    set i: nat | i < |secret| && secret[i] == guess[i]
  }

  /** Number of indices at which the two codes agree, counted from the back. */
  function MatchCount(secret: seq<int>, guess: seq<int>): nat
    requires |secret| == |guess|
  {
    if |secret| == 0 then 0
    else
      var n := |secret| - 1;
      MatchCount(secret[..n], guess[..n]) + (if secret[n] == guess[n] then 1 else 0)
  }

  /** Number of occurrences of `d` in `s`, counted from the back. */
  function Count(s: seq<int>, d: int): nat {
    if |s| == 0 then 0
    else Count(s[..|s| - 1], d) + (if s[|s| - 1] == d then 1 else 0)
  }

  /** Sum, over the digits d..7, of the smaller of the two occurrence counts. */
  function OverlapFrom(secret: seq<int>, guess: seq<int>, d: int): nat
    requires 0 <= d <= MaxDigit + 1
    decreases MaxDigit + 1 - d
  {
    if d == MaxDigit + 1 then 0
    else Min(Count(secret, d), Count(guess, d)) + OverlapFrom(secret, guess, d + 1)
  }

  /** The per-digit minimum-count overlap over the whole alphabet 0..7. */
  function Overlap(secret: seq<int>, guess: seq<int>): nat {
    OverlapFrom(secret, guess, 0)
  }

  /** `score_guess`: rejects an empty secret or a guess of another length,
      otherwise returns (correct numbers, correct positions). */
  function ScoreGuess(secret: seq<int>, guess: seq<int>): (r: ScoreResult)
    ensures r.InvalidLengths? <==> |secret| == 0 || |guess| != |secret|
    ensures r.Scored? ==> r.feedback.correctPositions <= |secret|
    ensures r.Scored? ==> r.feedback.correctNumbers <= |secret|
  {
    if |secret| == 0 || |guess| != |secret| then InvalidLengths
    else
      MatchCountAtMostLength(secret, guess);
      OverlapAtMostLength(secret, guess);
      Scored(Feedback(Overlap(secret, guess), MatchCount(secret, guess)))
  }

  /** `is_win`: the guess matches the secret at every position, and both are
      non-empty codes of the same length. */
  function IsWin(secret: seq<int>, guess: seq<int>): (r: bool)
    ensures r <==> |secret| > 0 && guess == secret
  {
    |secret| != 0 && |guess| == |secret| &&
    forall i :: 0 <= i < |secret| ==> secret[i] == guess[i]
  }

  // ---------------------------------------------------------------------
  // The counting algorithm of the source, with loops over count arrays.
  // ---------------------------------------------------------------------

  /** Tally of every in-alphabet digit of `s`, indexed by digit. */
  method TallyDigits(s: seq<int>) returns (counts: seq<nat>)
    ensures |counts| == MaxDigit + 1
    ensures forall d :: 0 <= d <= MaxDigit ==> counts[d] == Count(s, d)
  {
    counts := [0, 0, 0, 0, 0, 0, 0, 0];
    var idx := 0;
    while idx < |s|
      invariant 0 <= idx <= |s|
      invariant |counts| == MaxDigit + 1
      invariant forall d :: 0 <= d <= MaxDigit ==> counts[d] == Count(s[..idx], d)
    {
      var digit := s[idx];
      assert s[..idx + 1][..idx] == s[..idx];
      if digit >= 0 && digit <= MaxDigit {
        counts := counts[digit := counts[digit] + 1];
      }
      idx := idx + 1;
    }
    assert s[..|s|] == s;
  }

  /** The source's algorithm: a positional pass, two tallies, and a sum of
      per-digit minima. It computes exactly `ScoreGuess`. */
  method ScoreGuessByCounting(secret: seq<int>, guess: seq<int>) returns (r: ScoreResult)
    ensures r == ScoreGuess(secret, guess)
  {
    var n := |secret|;
    if n == 0 || |guess| != n {
      return InvalidLengths;
    }
    var correctPositions := 0;
    var i := 0;
    while i < n
      invariant 0 <= i <= n
      invariant correctPositions == MatchCount(secret[..i], guess[..i])
    {
      assert secret[..i + 1][..i] == secret[..i];
      assert guess[..i + 1][..i] == guess[..i];
      if secret[i] == guess[i] {
        correctPositions := correctPositions + 1;
      }
      i := i + 1;
    }
    assert secret[..n] == secret && guess[..n] == guess;

    var secretCounts := TallyDigits(secret);
    var guessCounts := TallyDigits(guess);

    var correctNumbers := 0;
    var digit := 0;
    while digit <= MaxDigit
      invariant 0 <= digit <= MaxDigit + 1
      invariant correctNumbers + OverlapFrom(secret, guess, digit) == Overlap(secret, guess)
    {
      if secretCounts[digit] < guessCounts[digit] {
        correctNumbers := correctNumbers + secretCounts[digit];
      } else {
        correctNumbers := correctNumbers + guessCounts[digit];
      }
      digit := digit + 1;
    }
    return Scored(Feedback(correctNumbers, correctPositions));
  }

  // ---------------------------------------------------------------------
  // Properties of the positional count.
  // ---------------------------------------------------------------------

  lemma {:induction false} MatchCountIsMatchingIndices(secret: seq<int>, guess: seq<int>)
    requires |secret| == |guess|
    ensures MatchCount(secret, guess) == |MatchingIndices(secret, guess)|
    decreases |secret|
  {
    if |secret| > 0 {
      var n := |secret| - 1;
      MatchCountIsMatchingIndices(secret[..n], guess[..n]);
      var prefix := MatchingIndices(secret[..n], guess[..n]);
      if secret[n] == guess[n] {
        assert MatchingIndices(secret, guess) == prefix + {n};
      } else {
        assert MatchingIndices(secret, guess) == prefix;
      }
    }
  }

  lemma {:induction false} MatchCountSymmetric(secret: seq<int>, guess: seq<int>)
    requires |secret| == |guess|
    ensures MatchCount(secret, guess) == MatchCount(guess, secret)
    decreases |secret|
  {
    if |secret| > 0 {
      var n := |secret| - 1;
      MatchCountSymmetric(secret[..n], guess[..n]);
    }
  }

  /** All positions agree exactly when the positional count is the full length. */
  lemma {:induction false} MatchCountFull(secret: seq<int>, guess: seq<int>)
    requires |secret| == |guess|
    ensures MatchCount(secret, guess) == |secret| <==> secret == guess
    decreases |secret|
  {
    if |secret| > 0 {
      var n := |secret| - 1;
      MatchCountFull(secret[..n], guess[..n]);
      MatchCountAtMostLength(secret[..n], guess[..n]);
      assert secret == secret[..n] + [secret[n]];
      assert guess == guess[..n] + [guess[n]];
    }
  }

  lemma {:induction false} MatchCountAtMostLength(secret: seq<int>, guess: seq<int>)
    requires |secret| == |guess|
    ensures MatchCount(secret, guess) <= |secret|
    decreases |secret|
  {
    if |secret| > 0 {
      var n := |secret| - 1;
      MatchCountAtMostLength(secret[..n], guess[..n]);
    }
  }

  // ---------------------------------------------------------------------
  // Properties of the per-digit overlap.
  // ---------------------------------------------------------------------

  lemma CountAppend(s: seq<int>, x: int, d: int)
    ensures Count(s + [x], d) == Count(s, d) + (if x == d then 1 else 0)
  {
    assert (s + [x])[..|s|] == s;
  }

  /** The occurrence count is the multiplicity in the code's multiset, so
      the overlap depends on each code's digits and not on their order. */
  lemma {:induction false} CountIsMultiplicity(s: seq<int>, d: int)
    ensures Count(s, d) == multiset(s)[d]
    decreases |s|
  {
    if |s| > 0 {
      var n := |s| - 1;
      assert s == s[..n] + [s[n]];
      CountIsMultiplicity(s[..n], d);
    }
  }

  lemma {:induction false} OverlapFromPermutation(a: seq<int>, a': seq<int>, b: seq<int>, d: int)
    requires multiset(a) == multiset(a')
    requires 0 <= d <= MaxDigit + 1
    ensures OverlapFrom(a, b, d) == OverlapFrom(a', b, d)
    decreases MaxDigit + 1 - d
  {
    if d <= MaxDigit {
      CountIsMultiplicity(a, d);
      CountIsMultiplicity(a', d);
      OverlapFromPermutation(a, a', b, d + 1);
    }
  }

  lemma {:induction false} OverlapFromSymmetric(a: seq<int>, b: seq<int>, d: int)
    requires 0 <= d <= MaxDigit + 1
    ensures OverlapFrom(a, b, d) == OverlapFrom(b, a, d)
    decreases MaxDigit + 1 - d
  {
    if d <= MaxDigit {
      OverlapFromSymmetric(a, b, d + 1);
    }
  }

  lemma OverlapSymmetric(a: seq<int>, b: seq<int>)
    ensures Overlap(a, b) == Overlap(b, a)
  {
    OverlapFromSymmetric(a, b, 0);
  }

  lemma MinBump(p: int, q: int, k: int)
    requires 0 <= k <= 1
    ensures Min(p, q) <= Min(p + k, q) <= Min(p, q) + k
  {
  }

  /** Appending one digit to the first code raises the overlap by at most
      one, and leaves it unchanged when the digit is outside the alphabet. */
  lemma {:induction false} OverlapFromAddOne(a: seq<int>, b: seq<int>, x: int, d: int)
    requires 0 <= d <= MaxDigit + 1
    ensures OverlapFrom(a, b, d) <= OverlapFrom(a + [x], b, d) <= OverlapFrom(a, b, d) + 1
    ensures !(d <= x <= MaxDigit) ==> OverlapFrom(a + [x], b, d) == OverlapFrom(a, b, d)
    decreases MaxDigit + 1 - d
  {
    if d <= MaxDigit {
      OverlapFromAddOne(a, b, x, d + 1);
      CountAppend(a, x, d);
      if x == d {
        MinBump(Count(a, d), Count(b, d), 1);
      }
    }
  }

  lemma OverlapAddOne(a: seq<int>, b: seq<int>, x: int)
    ensures Overlap(a, b) <= Overlap(a + [x], b) <= Overlap(a, b) + 1
    ensures !InAlphabet(x) ==> Overlap(a + [x], b) == Overlap(a, b)
  {
    OverlapFromAddOne(a, b, x, 0);
  }

  /** Appending the same digit to both codes raises the overlap by exactly
      one when the digit is in the alphabet, and by nothing otherwise. */
  lemma {:induction false} OverlapFromAddBoth(a: seq<int>, b: seq<int>, x: int, d: int)
    requires 0 <= d <= MaxDigit + 1
    ensures OverlapFrom(a + [x], b + [x], d) == OverlapFrom(a, b, d) + (if d <= x <= MaxDigit then 1 else 0)
    decreases MaxDigit + 1 - d
  {
    if d <= MaxDigit {
      OverlapFromAddBoth(a, b, x, d + 1);
      CountAppend(a, x, d);
      CountAppend(b, x, d);
    }
  }

  lemma OverlapAddBoth(a: seq<int>, b: seq<int>, x: int)
    ensures Overlap(a + [x], b + [x]) == Overlap(a, b) + (if InAlphabet(x) then 1 else 0)
  {
    OverlapFromAddBoth(a, b, x, 0);
  }

  /** Digits outside the alphabet contribute nothing: appending one to either
      code leaves the overlap unchanged. */
  lemma OverlapIgnoresOutOfAlphabet(secret: seq<int>, guess: seq<int>, x: int)
    requires !InAlphabet(x)
    ensures Overlap(secret + [x], guess) == Overlap(secret, guess)
    ensures Overlap(secret, guess + [x]) == Overlap(secret, guess)
  {
    OverlapAddOne(secret, guess, x);
    OverlapAddOne(guess, secret, x);
    OverlapSymmetric(guess + [x], secret);
    OverlapSymmetric(guess, secret);
  }

  lemma {:induction false} OverlapAtMostLength(s: seq<int>, b: seq<int>)
    ensures Overlap(s, b) <= |s|
    decreases |s|
  {
    if |s| > 0 {
      var n := |s| - 1;
      assert s == s[..n] + [s[n]];
      OverlapAtMostLength(s[..n], b);
      OverlapAddOne(s[..n], b, s[n]);
    }
  }

  /** With every digit of the secret in the alphabet, each exact match is also
      a value match, so the positional count never exceeds the overlap. */
  lemma {:induction false} MatchCountAtMostOverlap(secret: seq<int>, guess: seq<int>)
    requires |secret| == |guess|
    requires AllInAlphabet(secret)
    ensures MatchCount(secret, guess) <= Overlap(secret, guess)
    decreases |secret|
  {
    if |secret| > 0 {
      var n := |secret| - 1;
      var s', g' := secret[..n], guess[..n];
      assert secret == s' + [secret[n]];
      assert guess == g' + [guess[n]];
      MatchCountAtMostOverlap(s', g');
      if secret[n] == guess[n] {
        OverlapAddBoth(s', g', secret[n]);
      } else {
        // Overlap(s', g') <= Overlap(s', g' + [g]) <= Overlap(s' + [s], g' + [g])
        OverlapAddOne(g', s', guess[n]);
        OverlapSymmetric(g', s');
        OverlapSymmetric(g' + [guess[n]], s');
        OverlapAddOne(s', g' + [guess[n]], secret[n]);
      }
    }
  }

  /** The overlap of an in-alphabet code with itself is its length. */
  lemma {:induction false} SelfOverlap(s: seq<int>)
    requires AllInAlphabet(s)
    ensures Overlap(s, s) == |s|
    decreases |s|
  {
    if |s| > 0 {
      var n := |s| - 1;
      assert s == s[..n] + [s[n]];
      SelfOverlap(s[..n]);
      OverlapAddBoth(s[..n], s[..n], s[n]);
    }
  }

  // ---------------------------------------------------------------------
  // Properties of `score_guess` and `is_win`.
  // ---------------------------------------------------------------------

  /** For in-alphabet secrets: 0 <= correct positions <= correct numbers <= n. */
  lemma ScoreBounds(secret: seq<int>, guess: seq<int>)
    requires |secret| > 0 && |guess| == |secret|
    requires AllInAlphabet(secret)
    ensures ScoreGuess(secret, guess).Scored?
    ensures var f := ScoreGuess(secret, guess).feedback;
            0 <= f.correctPositions <= f.correctNumbers <= |secret|
  {
    MatchCountAtMostOverlap(secret, guess);
  }

  /** Without the alphabet precondition the ordering fails: two equal
      out-of-alphabet digits match in position but not in value. */
  lemma OutOfAlphabetBreaksOrdering()
    ensures ScoreGuess([9], [9]) == Scored(Feedback(0, 1))
  {
    var s := [9];
    assert s[..0] == [];
    assert forall d :: 0 <= d <= MaxDigit ==> Count(s, d) == 0;
    assert OverlapFrom(s, s, 8) == 0;
    assert OverlapFrom(s, s, 4) == 0;
  }

  /** The correct-positions count is the number of indices at which the
      codes agree. */
  lemma PositionsAreMatchingIndices(secret: seq<int>, guess: seq<int>)
    requires ScoreGuess(secret, guess).Scored?
    ensures ScoreGuess(secret, guess).feedback.correctPositions == |MatchingIndices(secret, guess)|
  {
    MatchCountIsMatchingIndices(secret, guess);
  }

  /** The number of correct digits depends only on which digits the secret
      holds, not on their order. */
  lemma NumbersIgnoreOrder(secret: seq<int>, secret': seq<int>, guess: seq<int>)
    requires multiset(secret) == multiset(secret')
    requires ScoreGuess(secret, guess).Scored?
    ensures ScoreGuess(secret', guess).Scored?
    ensures ScoreGuess(secret', guess).feedback.correctNumbers
         == ScoreGuess(secret, guess).feedback.correctNumbers
  {
    assert |secret'| == |multiset(secret')| == |multiset(secret)| == |secret|;
    OverlapFromPermutation(secret, secret', guess, 0);
  }

  /** Both components are symmetric in secret and guess. */
  lemma ScoreSymmetric(secret: seq<int>, guess: seq<int>)
    ensures ScoreGuess(secret, guess) == ScoreGuess(guess, secret)
  {
    if |secret| > 0 && |guess| == |secret| {
      MatchCountSymmetric(secret, guess);
      OverlapSymmetric(secret, guess);
    }
  }

  /** A code scored against itself gets full marks. */
  lemma ScoreSelf(secret: seq<int>)
    requires |secret| > 0 && AllInAlphabet(secret)
    ensures ScoreGuess(secret, secret) == Scored(Feedback(|secret|, |secret|))
  {
    SelfOverlap(secret);
    MatchCountFull(secret, secret);
  }

  /** For codes of equal positive length, a win is exactly a full positional
      count; for empty or mismatched codes there is never a win. */
  lemma IsWinIffAllPositions(secret: seq<int>, guess: seq<int>)
    ensures (|secret| == 0 || |guess| != |secret|) ==> !IsWin(secret, guess)
    ensures ScoreGuess(secret, guess).Scored? ==>
              (IsWin(secret, guess) <==> ScoreGuess(secret, guess).feedback.correctPositions == |secret|)
  {
    if |secret| > 0 && |guess| == |secret| {
      MatchCountFull(secret, guess);
    }
  }

  /** The overlap written out digit by digit. */
  lemma OverlapExpanded(a: seq<int>, b: seq<int>)
    ensures Overlap(a, b)
         == Min(Count(a, 0), Count(b, 0)) + Min(Count(a, 1), Count(b, 1))
          + Min(Count(a, 2), Count(b, 2)) + Min(Count(a, 3), Count(b, 3))
          + Min(Count(a, 4), Count(b, 4)) + Min(Count(a, 5), Count(b, 5))
          + Min(Count(a, 6), Count(b, 6)) + Min(Count(a, 7), Count(b, 7))
  {
    assert OverlapFrom(a, b, 8) == 0;
    assert OverlapFrom(a, b, 7) == Min(Count(a, 7), Count(b, 7));
    assert OverlapFrom(a, b, 6) == Min(Count(a, 6), Count(b, 6)) + OverlapFrom(a, b, 7);
    assert OverlapFrom(a, b, 5) == Min(Count(a, 5), Count(b, 5)) + OverlapFrom(a, b, 6);
    assert OverlapFrom(a, b, 4) == Min(Count(a, 4), Count(b, 4)) + OverlapFrom(a, b, 5);
    assert OverlapFrom(a, b, 3) == Min(Count(a, 3), Count(b, 3)) + OverlapFrom(a, b, 4);
    assert OverlapFrom(a, b, 2) == Min(Count(a, 2), Count(b, 2)) + OverlapFrom(a, b, 3);
    assert OverlapFrom(a, b, 1) == Min(Count(a, 1), Count(b, 1)) + OverlapFrom(a, b, 2);
  }

  /** The occurrence count of a four-digit code, position by position. */
  lemma CountFour(s: seq<int>)
    requires |s| == 4
    ensures forall d ::
              Count(s, d)
              == (if s[0] == d then 1 else 0) + (if s[1] == d then 1 else 0)
                 + (if s[2] == d then 1 else 0) + (if s[3] == d then 1 else 0)
  {
    var s3 := s[..3];
    var s2 := s3[..2];
    var s1 := s2[..1];
    assert s1[..0] == [];
    forall d
      ensures Count(s, d)
           == (if s[0] == d then 1 else 0) + (if s[1] == d then 1 else 0)
            + (if s[2] == d then 1 else 0) + (if s[3] == d then 1 else 0)
    {
      assert Count(s1, d) == (if s[0] == d then 1 else 0);
      assert Count(s2, d) == Count(s1, d) + (if s[1] == d then 1 else 0);
      assert Count(s3, d) == Count(s2, d) + (if s[2] == d then 1 else 0);
    }
  }

  /** The positional count of two four-digit codes, position by position. */
  lemma MatchCountFour(s: seq<int>, g: seq<int>)
    requires |s| == |g| == 4
    ensures MatchCount(s, g)
         == (if s[0] == g[0] then 1 else 0) + (if s[1] == g[1] then 1 else 0)
          + (if s[2] == g[2] then 1 else 0) + (if s[3] == g[3] then 1 else 0)
  {
    var s3, g3 := s[..3], g[..3];
    var s2, g2 := s3[..2], g3[..2];
    var s1, g1 := s2[..1], g2[..1];
    assert MatchCount(s1, g1) == (if s[0] == g[0] then 1 else 0) by {
      assert s1[..0] == [] && g1[..0] == [];
    }
    assert MatchCount(s2, g2) == MatchCount(s1, g1) + (if s[1] == g[1] then 1 else 0);
    assert MatchCount(s3, g3) == MatchCount(s2, g2) + (if s[2] == g[2] then 1 else 0);
  }

  /** Engine test case: one digit agrees, in the same place. */
  lemma ScoreExampleOnePlaced()
    ensures ScoreGuess([0, 1, 3, 5], [0, 2, 4, 6]) == Scored(Feedback(1, 1))
  {
    var s, g := [0, 1, 3, 5], [0, 2, 4, 6];
    MatchCountFour(s, g);
    CountFour(s);
    CountFour(g);
    OverlapExpanded(s, g);
  }

  /** Engine test case: duplicates, all values shared, two placed. */
  lemma ScoreExampleDuplicates()
    ensures ScoreGuess([2, 2, 5, 5], [2, 5, 2, 5]) == Scored(Feedback(4, 2))
  {
    var s, g := [2, 2, 5, 5], [2, 5, 2, 5];
    MatchCountFour(s, g);
    CountFour(s);
    CountFour(g);
    OverlapExpanded(s, g);
  }

  /** Engine test case: disjoint digits score nothing. */
  lemma ScoreExampleDisjoint()
    ensures ScoreGuess([0, 1, 2, 3], [4, 5, 6, 7]) == Scored(Feedback(0, 0))
  {
    var s, g := [0, 1, 2, 3], [4, 5, 6, 7];
    MatchCountFour(s, g);
    CountFour(s);
    CountFour(g);
    OverlapExpanded(s, g);
  }

  /** Engine test case: the exact code wins with full marks. */
  lemma ScoreExampleWin()
    ensures ScoreGuess([1, 2, 3, 4], [1, 2, 3, 4]) == Scored(Feedback(4, 4))
    ensures IsWin([1, 2, 3, 4], [1, 2, 3, 4]) && !IsWin([1, 2, 3, 4], [1, 2, 3, 5])
  {
    ScoreSelf([1, 2, 3, 4]);
  }
}
