/**
 Worked grades, stated on concrete answers and guesses. The first argument
 of `GradeGuess` is always the answer. They include the cases that show the
 second pass revisiting exactly matched guess positions: swapping answer and
 guess can change the grade, and one guess digit can earn both a hit and a
 near.
 */
module ScoringCases {
  import opened Codes
  import opened Grader

  /** Two exact matches use up the only two 1s the answer holds. */
  lemma DuplicateDigits()
    ensures GradeGuess([1, 1, 2, 3], [1, 1, 1, 1]) == "++"
  {
  }

  /** All digits right, all positions wrong. */
  lemma AllNear()
    ensures GradeGuess([1, 2, 3, 4], [4, 3, 2, 1]) == "----"
  {
    var answer, guess := [1, 2, 3, 4], [4, 3, 2, 1];
    assert ExactPass(answer, guess, 0, Scratch(answer, "")) == Scratch(answer, "");
    var c1, c2, c3 := [1, 2, 3, -1], [1, 2, -1, -1], [1, -1, -1, -1];
    assert Contains(answer, 4) == 3 && answer[3 := -1] == c1;
    assert Contains(c1, 3) == 2 && c1[2 := -1] == c2;
    assert Contains(c2, 2) == 1 && c2[1 := -1] == c3;
    assert Contains(c3, 1) == 0 && c3[0 := -1] == [-1, -1, -1, -1];
    assert "" + [Near] == "-" && "-" + [Near] == "--" && "--" + [Near] == "---" && "---" + [Near] == "----";
  }

  /** No digit in common. */
  lemma Disjoint()
    ensures GradeGuess([1, 2, 3, 4], [5, 5, 5, 5]) == ""
  {
  }

  /**
   The exactly matched 1 in the guess also claims the other 1 of the answer,
   while the same pair with the roles swapped earns only the hit.
   */
  lemma NotSymmetric()
    ensures GradeGuess([1, 2, 1, 3], [1, 4, 4, 4]) == "+-"
    ensures GradeGuess([1, 4, 4, 4], [1, 2, 1, 3]) == "+"
  {
  }

  /** Two guessed 1s earn two hits and then two nears from the remaining 1s. */
  lemma CreditedTwice()
    ensures GradeGuess([1, 1, 1, 1], [1, 1, 2, 3]) == "++--"
  {
  }
}
