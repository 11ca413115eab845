/**
 Worked games on concrete input: malformed lines are re-prompted without
 using up an attempt, and the line after a winning guess is never read.
 */
module GameCases {
  import opened Codes
  import opened Grader
  import opened Input
  import opened Game
  import Score

  /** "12a4" and "123" are rejected, "1234" wins at once, "5555" is left unread. */
  lemma RejectThenWin()
    ensures GameLoop([1, 2, 3, 4], ["12a4", "123", "1234", "5555"]) ==
            Finished(true, [Round([1, 2, 3, 4], Win)], ["5555"])
  {
    var answer := [1, 2, 3, 4];
    var lines := ["12a4", "123", "1234", "5555"];
    assert !ValidateGuess("12a4") && !ValidateGuess("123") && ValidateGuess("1234");
    assert FirstValid(lines) == 2;
    assert ParseGuess("1234") == answer;
    Score.EqualGuessWins(answer);
    WonStops(answer, ["5555"], 1, [Round(answer, Win)]);
  }
}
