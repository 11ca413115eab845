/**
 The scorer over arrays, statement by statement as `gradeGuess` and
 `contains` are written. The method has no `modifies` clause, so it cannot
 change `answer` or `guess`: every consumption happens on the fresh copy.
 */
module GraderArrays {
  import opened Codes
  import opened Grader

  /** The forward scan of `contains`: the last index holding `value`, or -1. */
  method ContainsIndex(a: array<int>, value: int) returns (retVal: int)
    ensures retVal == -1 <==> value !in a[..]
    ensures retVal != -1 ==>
              0 <= retVal < a.Length && a[retVal] == value && forall j :: retVal < j < a.Length ==> a[j] != value
  {
    retVal := -1;
    for i := 0 to a.Length
      invariant retVal == -1 || (0 <= retVal < i && a[retVal] == value)
      invariant forall j :: retVal < j < i ==> a[j] != value
    {
      if a[i] == value {
        retVal := i;
      }
    }
  }

  /** Grades `guess` against `answer` exactly as the functional scorer does. */
  method GradeGuessOnArrays(answer: array<int>, guess: array<int>) returns (grade: string)
    requires IsCode(answer[..]) && IsCode(guess[..])
    ensures grade == GradeGuess(answer[..], guess[..])
  {
    grade := "";
    var answerCopy := new int[CodeLength];
    forall k | 0 <= k < CodeLength {
      answerCopy[k] := answer[k];
    }
    ghost var a, g := answer[..], guess[..];
    assert answerCopy[..] == a;

    // Exact matches.
    for i := 0 to CodeLength
      invariant ExactPass(a, g, i, Scratch(answerCopy[..], grade)) == ExactPass(a, g, 0, Scratch(a, ""))
    {
      if answer[i] == guess[i] {
        grade := grade + [Hit];
        answerCopy[i] := Consumed;
      }
    }

    // Value-only matches, over every guess position.
    for i := 0 to CodeLength
      invariant PartialPass(g, i, Scratch(answerCopy[..], grade)) == PartialPass(g, 0, ExactPass(a, g, 0, Scratch(a, "")))
    {
      var valIndex := ContainsIndex(answerCopy, guess[i]);
      assert valIndex == Contains(answerCopy[..], g[i]);
      if valIndex != -1 {
        answerCopy[valIndex] := Consumed;
        grade := grade + [Near];
      }
    }
  }
}
