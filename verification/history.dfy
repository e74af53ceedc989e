/** One entry of a game's guess history and the feedback message it carries.
    Both store variants build the same entry for an accepted guess; the
    timestamp is left out. */
module History {
  import opened Types
  import opened Engine

  /** A recorded guess with the engine's counts and the message shown. */
  datatype GuessEntry = GuessEntry(
    guess: seq<int>,
    correctNumbers: nat,
    correctPositions: nat,
    message: string)

  const AllIncorrect := "all incorrect"

  function DigitChar(d: nat): (c: char)
    requires d < 10
    ensures '0' <= c <= '9'
  {
    "0123456789"[d]
  }

  function DigitValue(c: char): nat
    requires '0' <= c <= '9'
  {
    (c as int) - ('0' as int)
  }

  /** Decimal rendering of a natural number, as Python's `str(n)`. */
  function NatToString(n: nat): (s: string)
    ensures |s| > 0
    ensures forall i :: 0 <= i < |s| ==> '0' <= s[i] <= '9'
    decreases n
  {
    if n < 10 then [DigitChar(n)] else NatToString(n / 10) + [DigitChar(n % 10)]
  }

  /** The number a string of decimal digits denotes. */
  function DecimalValue(s: string): nat
    requires forall i :: 0 <= i < |s| ==> '0' <= s[i] <= '9'
  {
    if |s| == 0 then 0 else 10 * DecimalValue(s[..|s| - 1]) + DigitValue(s[|s| - 1])
  }

  /** The rendering is faithful: reading it back gives the number. */
  lemma {:induction false} NatToStringRoundTrip(n: nat)
    ensures DecimalValue(NatToString(n)) == n
    decreases n
  {
    var s := NatToString(n);
    if n >= 10 {
      NatToStringRoundTrip(n / 10);
      assert s[..|s| - 1] == NatToString(n / 10);
    }
  }

  /** The message for a guess: "all incorrect" when nothing matched, otherwise
      "N correct number(s) and M correct location(s)". */
  function FeedbackMessage(correctNumbers: nat, correctPositions: nat): string {
    if correctNumbers == 0 && correctPositions == 0 then AllIncorrect
    else NatToString(correctNumbers) + " correct number(s) and "
         + NatToString(correctPositions) + " correct location(s)"
  }

  /** The fixed message is used exactly when both counts are zero; every other
      message starts with the rendered number of correct digits. */
  lemma FeedbackMessageAllIncorrect(correctNumbers: nat, correctPositions: nat)
    ensures FeedbackMessage(correctNumbers, correctPositions) == AllIncorrect
        <==> correctNumbers == 0 && correctPositions == 0
    ensures FeedbackMessage(correctNumbers, correctPositions) != AllIncorrect ==>
              var m := FeedbackMessage(correctNumbers, correctPositions);
              var k := |NatToString(correctNumbers)|;
              k <= |m| && m[..k] == NatToString(correctNumbers)
  {
    var m := FeedbackMessage(correctNumbers, correctPositions);
    if !(correctNumbers == 0 && correctPositions == 0) {
      var k := |NatToString(correctNumbers)|;
      assert m[..k] == NatToString(correctNumbers);
      assert '0' <= m[0] <= '9';
      assert AllIncorrect[0] == 'a';
    }
  }

  /** The history entry for an accepted guess with its engine feedback. */
  function EntryFor(guess: seq<int>, f: Feedback): (e: GuessEntry)
    ensures e.guess == guess
    ensures e.correctNumbers == f.correctNumbers && e.correctPositions == f.correctPositions
    ensures e.message == AllIncorrect <==> f.correctNumbers == 0 && f.correctPositions == 0
  {
    FeedbackMessageAllIncorrect(f.correctNumbers, f.correctPositions);
    GuessEntry(guess, f.correctNumbers, f.correctPositions,
               FeedbackMessage(f.correctNumbers, f.correctPositions))
  }

  /** The entry is the one the engine justifies for this secret. */
  predicate EntryScores(secret: seq<int>, e: GuessEntry) {
    && ScoreGuess(secret, e.guess) == Scored(Feedback(e.correctNumbers, e.correctPositions))
    && e.message == FeedbackMessage(e.correctNumbers, e.correctPositions)
  }

  /** The status a game takes after an accepted guess: won on an exact match,
      otherwise lost once no attempt is left, otherwise still in progress. */
  function StatusAfterGuess(secret: seq<int>, attempt: seq<int>, attemptsLeft: int): Status {
    if IsWin(secret, attempt) then Won
    else if attemptsLeft <= 0 then Lost
    else InProgress
  }

  /** What both store variants promise of an accepted guess: exactly one
      history entry carrying the engine's counts is appended, one attempt is
      spent, and the status follows the win/lose rule. */
  predicate Advances(secret: seq<int>, attempt: seq<int>,
                     history: seq<GuessEntry>, attemptsLeft: int,
                     history': seq<GuessEntry>, attemptsLeft': int, status': Status)
  {
    && |history'| == |history| + 1
    && history'[..|history|] == history
    && history'[|history|].guess == attempt
    && EntryScores(secret, history'[|history|])
    && attemptsLeft' == attemptsLeft - 1
    && status' == StatusAfterGuess(secret, attempt, attemptsLeft')
  }
}
