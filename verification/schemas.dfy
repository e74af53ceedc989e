/** Request validation of a guess: each digit must lie in 0..7. The length
    is deliberately not checked here; it depends on the game. */
module Schemas {
  import opened Engine

  datatype Validation = Valid(digits: seq<int>) | OutOfRange

  /** The scan of the validator from `index` on: no digit below 0 or above 7. */
  function DigitsInRangeFrom(guessList: seq<int>, index: nat): (ok: bool)
    requires index <= |guessList|
    ensures ok <==> forall i :: index <= i < |guessList| ==> InAlphabet(guessList[i])
    decreases |guessList| - index
  {
    if index == |guessList| then true
    else if guessList[index] < 0 || guessList[index] > MaxDigit then false
    else DigitsInRangeFrom(guessList, index + 1)
  }

  /** `validate_digits`: accepts a list, unchanged, exactly when every digit is
      in the alphabet. */
  function ValidateDigits(guessList: seq<int>): (r: Validation)
    ensures r.Valid? <==> AllInAlphabet(guessList)
    ensures r.Valid? ==> r.digits == guessList
  {
    if DigitsInRangeFrom(guessList, 0) then Valid(guessList) else OutOfRange
  }

  /** The list of `n` zeros. */
  function Zeros(n: nat): (s: seq<int>)
    ensures |s| == n && AllInAlphabet(s)
  {
    seq(n, _ => 0)
  }

  /** No length constraint: the empty list and lists of any length pass. */
  lemma ValidateAnyLength(n: nat)
    ensures ValidateDigits([]) == Valid([])
    ensures ValidateDigits(Zeros(n)) == Valid(Zeros(n))
  {
  }

  lemma ValidateExamples()
    ensures ValidateDigits([0, 1, 2, 3]) == Valid([0, 1, 2, 3])
    ensures ValidateDigits([0, 1, 2]) == Valid([0, 1, 2])
    ensures ValidateDigits([0, 1, 2, 3, 4]) == Valid([0, 1, 2, 3, 4])
    ensures ValidateDigits([0, 8, 2]) == OutOfRange
    ensures ValidateDigits([-1]) == OutOfRange
  {
    assert !InAlphabet([0, 8, 2][1]);
    assert !InAlphabet([-1][0]);
  }
}
