/**
 The attempt loop of `gameLoop`, as a fold over the lines the player types.
 Each attempt reads lines until one is a valid guess, grades it and stops
 taking guesses once a grade is `++++`; ten attempts are allowed. Lines that
 are never read are handed back as `unread`, and running out of lines while
 a guess is awaited is reported as `InputExhausted`.
 */
module Game {
  import opened Codes
  import opened Grader
  import opened Input
  import Score

  /** Number of graded guesses the player is allowed. */
  const MaxAttempts: nat := 10

  /** One graded guess. */
  datatype Round = Round(guess: seq<int>, grade: string)

  datatype Outcome =
    | Finished(won: bool, rounds: seq<Round>, unread: seq<string>)
    | InputExhausted(rounds: seq<Round>)

  /**
   Index of the first valid line, or `|lines|` when there is none: the
   re-prompting loop that discards invalid lines.
   */
  function FirstValid(lines: seq<string>): (n: nat)
    ensures n <= |lines|
    ensures n < |lines| ==> ValidateGuess(lines[n])
    ensures forall j :: 0 <= j < n ==> !ValidateGuess(lines[j])
  {
    FirstValidFrom(lines, 0)
  }

  /** The scan behind `FirstValid`, resumed at index `i` past lines known to be invalid. */
  function FirstValidFrom(lines: seq<string>, i: nat): (n: nat)
    requires i <= |lines|
    requires forall j :: 0 <= j < i ==> !ValidateGuess(lines[j])
    ensures i <= n <= |lines|
    ensures n < |lines| ==> ValidateGuess(lines[n])
    ensures forall j :: 0 <= j < n ==> !ValidateGuess(lines[j])
    decreases |lines| - i
  {
    if i == |lines| then i
    else if ValidateGuess(lines[i]) then i
    else FirstValidFrom(lines, i + 1)
  }

  /**
   The loop from iteration `attempt`, with `won` recording whether a `++++`
   grade has been seen and `rounds` the guesses graded so far.
   */
  function Play(answer: seq<int>, lines: seq<string>, attempt: nat, won: bool, rounds: seq<Round>): Outcome
    requires IsCode(answer) && attempt <= MaxAttempts
    // The second component only keeps the verifier from unrolling the loop
    // eagerly on literal start states; the first one alone already decreases.
    decreases MaxAttempts - attempt, |lines|
  {
    if attempt == MaxAttempts then Finished(won, rounds, lines)
    else if won then Play(answer, lines, attempt + 1, won, rounds)
    else
      var n := FirstValid(lines);
      if n == |lines| then InputExhausted(rounds)
      else
        var guess := ParseGuess(lines[n]);
        var grade := GradeGuess(answer, guess);
        Play(answer, lines[n + 1..], attempt + 1, grade == Win, rounds + [Round(guess, grade)])
  }

  /** The two ways the loop ends without grading: out of attempts, or out of input while a guess is awaited. */
  lemma PlayEnds(answer: seq<int>, lines: seq<string>, attempt: nat, won: bool, rounds: seq<Round>)
    requires IsCode(answer) && attempt <= MaxAttempts
    ensures attempt == MaxAttempts ==> Play(answer, lines, attempt, won, rounds) == Finished(won, rounds, lines)
    ensures attempt < MaxAttempts && !won && FirstValid(lines) == |lines| ==>
              Play(answer, lines, attempt, won, rounds) == InputExhausted(rounds)
  {
  }

  /** One iteration of an unwon game: the first valid line is graded and play resumes after it. */
  lemma PlayStep(answer: seq<int>, lines: seq<string>, attempt: nat, rounds: seq<Round>)
    requires IsCode(answer) && attempt < MaxAttempts && FirstValid(lines) < |lines|
    ensures var n := FirstValid(lines);
            var guess := ParseGuess(lines[n]);
            var grade := GradeGuess(answer, guess);
            Play(answer, lines, attempt, false, rounds) ==
            Play(answer, lines[n + 1..], attempt + 1, grade == Win, rounds + [Round(guess, grade)])
  {
  }

  /** The whole game against `answer`, fed the player's lines in order. */
  function GameLoop(answer: seq<int>, lines: seq<string>): Outcome
    requires IsCode(answer)
  {
    Play(answer, lines, 0, false, [])
  }

  /** Whether some graded guess equals the answer. */
  predicate Guessed(answer: seq<int>, rounds: seq<Round>) {
    exists j :: 0 <= j < |rounds| && rounds[j].guess == answer
  }

  /** `round` holds a well-formed guess and the grade `GradeGuess` gives it. */
  predicate Graded(answer: seq<int>, round: Round)
    requires IsCode(answer)
  {
    IsCode(round.guess) && round.grade == GradeGuess(answer, round.guess)
  }

  /**
   What holds of the loop's state between iterations: every round is a
   well-formed guess with its grade, no round but the last can be a win,
   `won` says whether the last one is, and while nobody has won every
   iteration so far has graded exactly one guess.
   */
  predicate Consistent(answer: seq<int>, attempt: nat, won: bool, rounds: seq<Round>)
    requires IsCode(answer)
  {
    && |rounds| <= attempt <= MaxAttempts
    && (!won ==> |rounds| == attempt)
    && (forall j :: 0 <= j < |rounds| ==> Graded(answer, rounds[j]))
    && (forall j :: 0 <= j < |rounds| - 1 ==> rounds[j].grade != Win)
    && (won <==> |rounds| > 0 && rounds[|rounds| - 1].grade == Win)
  }

  /** Grading one more guess keeps `Consistent`. */
  lemma ConsistentStep(answer: seq<int>, attempt: nat, rounds: seq<Round>, guess: seq<int>)
    requires IsCode(answer) && IsCode(guess) && attempt < MaxAttempts
    requires Consistent(answer, attempt, false, rounds)
    ensures var grade := GradeGuess(answer, guess);
            Consistent(answer, attempt + 1, grade == Win, rounds + [Round(guess, grade)])
  {
  }

  /** The loop keeps `Consistent`, and the game's verdict follows from it. */
  lemma {:induction false} PlayKeepsConsistent(answer: seq<int>, lines: seq<string>, attempt: nat, won: bool, rounds: seq<Round>)
    requires IsCode(answer) && attempt <= MaxAttempts
    requires Consistent(answer, attempt, won, rounds)
    ensures Play(answer, lines, attempt, won, rounds).Finished? ==>
              Consistent(answer, MaxAttempts, Play(answer, lines, attempt, won, rounds).won,
                         Play(answer, lines, attempt, won, rounds).rounds)
    ensures Play(answer, lines, attempt, won, rounds).InputExhausted? ==>
              var rs := Play(answer, lines, attempt, won, rounds).rounds;
              Consistent(answer, |rs|, false, rs)
    decreases MaxAttempts - attempt
  {
    if attempt < MaxAttempts {
      if won {
        WonStops(answer, lines, attempt, rounds);
      } else {
        var n := FirstValid(lines);
        if n < |lines| {
          var guess := ParseGuess(lines[n]);
          var grade := GradeGuess(answer, guess);
          var rounds' := rounds + [Round(guess, grade)];
          PlayStep(answer, lines, attempt, rounds);
          ConsistentStep(answer, attempt, rounds, guess);
          PlayKeepsConsistent(answer, lines[n + 1..], attempt + 1, grade == Win, rounds');
        } else {
          PlayEnds(answer, lines, attempt, won, rounds);
        }
      }
    } else {
      PlayEnds(answer, lines, attempt, won, rounds);
    }
  }

  /**
   The game's verdict: at most ten guesses are graded; it is won exactly
   when one graded guess equals the answer, and then that guess is the last
   one graded; a game lost by exhausting the attempts graded all ten.
   */
  lemma GameVerdict(answer: seq<int>, lines: seq<string>)
    requires IsCode(answer)
    ensures |GameLoop(answer, lines).rounds| <= MaxAttempts
    ensures GameLoop(answer, lines).Finished? ==>
              (GameLoop(answer, lines).won <==> Guessed(answer, GameLoop(answer, lines).rounds))
    ensures GameLoop(answer, lines).InputExhausted? ==> !Guessed(answer, GameLoop(answer, lines).rounds)
    ensures var r := GameLoop(answer, lines);
            r.Finished? && r.won ==> r.rounds[|r.rounds| - 1].guess == answer
    ensures var r := GameLoop(answer, lines);
            r.Finished? && !r.won ==> |r.rounds| == MaxAttempts
  {
    PlayKeepsConsistent(answer, lines, 0, false, []);
    var rs := GameLoop(answer, lines).rounds;
    forall j | 0 <= j < |rs|
      ensures rs[j].grade == Win <==> rs[j].guess == answer
    {
      Score.WinIffEqual(answer, rs[j].guess);
    }
  }

  /** Skipping a run of invalid lines moves the first valid line by their number. */
  lemma {:induction false} FirstValidSkips(bad: seq<string>, lines: seq<string>)
    requires forall j :: 0 <= j < |bad| ==> !ValidateGuess(bad[j])
    ensures FirstValid(bad + lines) == |bad| + FirstValid(lines)
  {
    if |bad| != 0 {
      assert (bad + lines)[0] == bad[0];
      assert (bad + lines)[1..] == bad[1..] + lines;
      assert FirstValid(bad + lines) == 1 + FirstValid(bad[1..] + lines);
      FirstValidSkips(bad[1..], lines);
    } else {
      assert bad + lines == lines;
    }
  }

  /** Lines appended after the first valid one do not move it. */
  lemma {:induction false} FirstValidPrefix(lines: seq<string>, extra: seq<string>)
    requires FirstValid(lines) < |lines|
    ensures FirstValid(lines + extra) == FirstValid(lines)
  {
    if !ValidateGuess(lines[0]) {
      assert (lines + extra)[1..] == lines[1..] + extra;
      FirstValidPrefix(lines[1..], extra);
    }
  }

  /**
   Invalid lines typed while a guess is awaited are discarded without
   using up an attempt: the game goes on exactly as if they were never typed.
   */
  lemma InvalidLinesConsumeNoAttempt(answer: seq<int>, bad: seq<string>, lines: seq<string>,
                                     attempt: nat, rounds: seq<Round>)
    requires IsCode(answer) && attempt < MaxAttempts
    requires forall j :: 0 <= j < |bad| ==> !ValidateGuess(bad[j])
    ensures Play(answer, bad + lines, attempt, false, rounds) == Play(answer, lines, attempt, false, rounds)
  {
    FirstValidSkips(bad, lines);
    var n := FirstValid(lines);
    if n < |lines| {
      assert (bad + lines)[|bad| + n] == lines[n];
      assert (bad + lines)[|bad| + n + 1..] == lines[n + 1..];
    }
  }

  /** Once the game is won, the remaining iterations read nothing. */
  lemma {:induction false} WonStops(answer: seq<int>, lines: seq<string>, attempt: nat, rounds: seq<Round>)
    requires IsCode(answer) && attempt <= MaxAttempts
    ensures Play(answer, lines, attempt, true, rounds) == Finished(true, rounds, lines)
    decreases MaxAttempts - attempt
  {
    if attempt < MaxAttempts {
      WonStops(answer, lines, attempt + 1, rounds);
    }
  }

  /** A finished game leaves a suffix of the input unread. */
  lemma {:induction false} UnreadIsSuffix(answer: seq<int>, lines: seq<string>, attempt: nat, won: bool, rounds: seq<Round>)
    requires IsCode(answer) && attempt <= MaxAttempts
    ensures var r := Play(answer, lines, attempt, won, rounds);
            r.Finished? ==> |r.unread| <= |lines| && r.unread == lines[|lines| - |r.unread|..]
    decreases MaxAttempts - attempt
  {
    if attempt < MaxAttempts {
      if won {
        WonStops(answer, lines, attempt, rounds);
        assert lines[|lines| - |lines|..] == lines;
      } else {
        var n := FirstValid(lines);
        if n < |lines| {
          UnreadStep(answer, lines, attempt, rounds);
        } else {
          PlayEnds(answer, lines, attempt, won, rounds);
        }
      }
    } else {
      PlayEnds(answer, lines, attempt, won, rounds);
      assert lines[|lines| - |lines|..] == lines;
    }
  }

  /** The step of `UnreadIsSuffix` that grades the first valid line. */
  lemma {:induction false} UnreadStep(answer: seq<int>, lines: seq<string>, attempt: nat, rounds: seq<Round>)
    requires IsCode(answer) && attempt < MaxAttempts && FirstValid(lines) < |lines|
    ensures var r := Play(answer, lines, attempt, false, rounds);
            r.Finished? ==> |r.unread| <= |lines| && r.unread == lines[|lines| - |r.unread|..]
    decreases MaxAttempts - attempt, 0
  {
    var n := FirstValid(lines);
    var guess := ParseGuess(lines[n]);
    var grade := GradeGuess(answer, guess);
    var rest := lines[n + 1..];
    PlayStep(answer, lines, attempt, rounds);
    UnreadIsSuffix(answer, rest, attempt + 1, grade == Win, rounds + [Round(guess, grade)]);
    SuffixThrough(lines, n, Play(answer, rest, attempt + 1, grade == Win, rounds + [Round(guess, grade)]));
  }

  /** A suffix of the lines after index `n` is a suffix of `lines`. */
  lemma SuffixThrough(lines: seq<string>, n: nat, r: Outcome)
    requires n < |lines|
    requires r.Finished? ==> |r.unread| <= |lines[n + 1..]| && r.unread == lines[n + 1..][|lines[n + 1..]| - |r.unread|..]
    ensures r.Finished? ==> |r.unread| <= |lines| && r.unread == lines[|lines| - |r.unread|..]
  {
    if r.Finished? {
      assert lines[|lines| - |r.unread|..] == lines[n + 1..][|lines[n + 1..]| - |r.unread|..];
    }
  }

  /**
   When a game that has not yet been won goes on to win, the line right
   before the unread remainder is the valid line of the last graded guess:
   nothing after the winning line is read.
   */
  lemma {:induction false} WinningLineRead(answer: seq<int>, lines: seq<string>, attempt: nat, rounds: seq<Round>)
    requires IsCode(answer) && attempt <= MaxAttempts
    ensures var r := Play(answer, lines, attempt, false, rounds);
            r.Finished? && r.won ==>
              && |r.unread| < |lines| && |r.rounds| > 0
              && ValidateGuess(lines[|lines| - |r.unread| - 1])
              && ParseGuess(lines[|lines| - |r.unread| - 1]) == r.rounds[|r.rounds| - 1].guess
    decreases MaxAttempts - attempt
  {
    if attempt < MaxAttempts {
      var n := FirstValid(lines);
      if n < |lines| {
        var guess := ParseGuess(lines[n]);
        var grade := GradeGuess(answer, guess);
        var rest := lines[n + 1..];
        var rounds' := rounds + [Round(guess, grade)];
        PlayStep(answer, lines, attempt, rounds);
        var r := Play(answer, lines, attempt, false, rounds);
        if grade == Win {
          WonStops(answer, rest, attempt + 1, rounds');
          assert r == Finished(true, rounds', rest);
          assert |lines| - |r.unread| - 1 == n;
          assert r.rounds[|r.rounds| - 1] == Round(guess, grade);
        } else {
          WinningLineRead(answer, rest, attempt + 1, rounds');
          assert r == Play(answer, rest, attempt + 1, false, rounds');
          if r.Finished? && r.won {
            assert lines[|lines| - |r.unread| - 1] == rest[|rest| - |r.unread| - 1];
          }
        }
      } else {
        PlayEnds(answer, lines, attempt, false, rounds);
      }
    } else {
      PlayEnds(answer, lines, attempt, false, rounds);
    }
  }

  /**
   Input typed after the game has finished is never read: appending lines
   changes nothing but the unread remainder.
   */
  lemma {:induction false} LaterInputIgnored(answer: seq<int>, lines: seq<string>, extra: seq<string>,
                                             attempt: nat, won: bool, rounds: seq<Round>)
    requires IsCode(answer) && attempt <= MaxAttempts
    requires Play(answer, lines, attempt, won, rounds).Finished?
    ensures var r := Play(answer, lines, attempt, won, rounds);
            Play(answer, lines + extra, attempt, won, rounds) == Finished(r.won, r.rounds, r.unread + extra)
    decreases MaxAttempts - attempt
  {
    if attempt < MaxAttempts {
      if won {
        WonStops(answer, lines, attempt, rounds);
        WonStops(answer, lines + extra, attempt, rounds);
      } else {
        var n := FirstValid(lines);
        PlayEnds(answer, lines, attempt, won, rounds);
        assert n < |lines|;
        FirstValidPrefix(lines, extra);
        assert (lines + extra)[n] == lines[n];
        assert (lines + extra)[n + 1..] == lines[n + 1..] + extra;
        var guess := ParseGuess(lines[n]);
        var grade := GradeGuess(answer, guess);
        PlayStep(answer, lines, attempt, rounds);
        PlayStep(answer, lines + extra, attempt, rounds);
        LaterInputIgnored(answer, lines[n + 1..], extra, attempt + 1, grade == Win, rounds + [Round(guess, grade)]);
      }
    } else {
      PlayEnds(answer, lines, attempt, won, rounds);
      PlayEnds(answer, lines + extra, attempt, won, rounds);
    }
  }

  /**
   A game over the whole input: when it is won, the last line it reads is
   a valid line spelling the answer, and whatever follows is left unread.
   */
  lemma WinningLineIsLastRead(answer: seq<int>, lines: seq<string>, extra: seq<string>)
    requires IsCode(answer)
    requires GameLoop(answer, lines).Finished? && GameLoop(answer, lines).won
    requires GameLoop(answer, lines).unread == []
    ensures ValidateGuess(lines[|lines| - 1]) && ParseGuess(lines[|lines| - 1]) == answer
    ensures GameLoop(answer, lines + extra) == Finished(true, GameLoop(answer, lines).rounds, extra)
  {
    WinningLineRead(answer, lines, 0, []);
    GameVerdict(answer, lines);
    LaterInputIgnored(answer, lines, extra, 0, false, []);
  }

  /** The guesses the valid lines of `lines` spell, in order; invalid lines contribute nothing. */
  function ValidGuesses(lines: seq<string>): seq<seq<int>> {
    if |lines| == 0 then []
    else (if ValidateGuess(lines[0]) then [ParseGuess(lines[0])] else []) + ValidGuesses(lines[1..])
  }

  /** The guesses of a list of rounds, in order. */
  function Guesses(rounds: seq<Round>): (gs: seq<seq<int>>)
    ensures |gs| == |rounds|
    ensures forall j :: 0 <= j < |rounds| ==> gs[j] == rounds[j].guess
  {
    seq(|rounds|, j requires 0 <= j < |rounds| => rounds[j].guess)
  }

  /** Grading one more round adds its guess at the end. */
  lemma GuessesAppend(rounds: seq<Round>, round: Round)
    ensures Guesses(rounds + [round]) == Guesses(rounds) + [round.guess]
  {
  }

  /** The valid guesses of two runs of lines, one after the other. */
  lemma {:induction false} ValidGuessesAppend(a: seq<string>, b: seq<string>)
    ensures ValidGuesses(a + b) == ValidGuesses(a) + ValidGuesses(b)
  {
    if |a| == 0 {
      assert a + b == b;
    } else {
      assert (a + b)[0] == a[0];
      assert (a + b)[1..] == a[1..] + b;
      ValidGuessesAppend(a[1..], b);
    }
  }

  /** A run of invalid lines spells no guess. */
  lemma {:induction false} NoValidGuesses(lines: seq<string>)
    requires forall j :: 0 <= j < |lines| ==> !ValidateGuess(lines[j])
    ensures ValidGuesses(lines) == []
  {
    if |lines| != 0 {
      NoValidGuesses(lines[1..]);
    }
  }

  /** Reading up to and including the first valid line yields exactly its guess. */
  lemma ValidGuessesToFirst(lines: seq<string>, n: nat)
    requires n < |lines| && ValidateGuess(lines[n])
    requires forall j :: 0 <= j < n ==> !ValidateGuess(lines[j])
    ensures ValidGuesses(lines[..n + 1]) == [ParseGuess(lines[n])]
  {
    var prefix := lines[..n];
    assert lines[..n + 1] == prefix + [lines[n]];
    ValidGuessesAppend(prefix, [lines[n]]);
    assert forall j :: 0 <= j < |prefix| ==> !ValidateGuess(prefix[j]);
    NoValidGuesses(prefix);
    ValidGuessesOne(lines[n]);
  }

  /** A single valid line spells its own guess. */
  lemma ValidGuessesOne(line: string)
    requires ValidateGuess(line)
    ensures ValidGuesses([line]) == [ParseGuess(line)]
  {
    assert [line][1..] == [];
  }

  /**
   The rounds are the valid lines read, in order: a finished game graded
   the valid lines before its unread rest, and a game that ran out of input
   graded every valid line it was given, fewer than the attempts it had left.
   */
  lemma {:induction false} RoundsFromValidLines(answer: seq<int>, lines: seq<string>, attempt: nat, won: bool, rounds: seq<Round>)
    requires IsCode(answer) && attempt <= MaxAttempts
    ensures var r := Play(answer, lines, attempt, won, rounds);
            r.Finished? ==>
              && |r.unread| <= |lines|
              && Guesses(r.rounds) == Guesses(rounds) + ValidGuesses(lines[..|lines| - |r.unread|])
    ensures var r := Play(answer, lines, attempt, won, rounds);
            r.InputExhausted? ==>
              && Guesses(r.rounds) == Guesses(rounds) + ValidGuesses(lines)
              && |r.rounds| - |rounds| < MaxAttempts - attempt
    decreases MaxAttempts - attempt
  {
    if won {
      WonStops(answer, lines, attempt, rounds);
      assert lines[..0] == [];
      assert Guesses(rounds) + [] == Guesses(rounds);
    } else if attempt < MaxAttempts {
      var n := FirstValid(lines);
      if n == |lines| {
        PlayEnds(answer, lines, attempt, won, rounds);
        NoValidGuesses(lines);
        assert Guesses(rounds) + [] == Guesses(rounds);
      } else {
        RoundsStepFinished(answer, lines, attempt, rounds);
        RoundsStepExhausted(answer, lines, attempt, rounds);
      }
    } else {
      PlayEnds(answer, lines, attempt, won, rounds);
      assert lines[..0] == [];
      assert Guesses(rounds) + [] == Guesses(rounds);
    }
  }

  /** The step of `RoundsFromValidLines` that grades the first valid line, for a game that finishes. */
  lemma {:induction false} RoundsStepFinished(answer: seq<int>, lines: seq<string>, attempt: nat, rounds: seq<Round>)
    requires IsCode(answer) && attempt < MaxAttempts && FirstValid(lines) < |lines|
    ensures var r := Play(answer, lines, attempt, false, rounds);
            r.Finished? ==>
              && |r.unread| <= |lines|
              && Guesses(r.rounds) == Guesses(rounds) + ValidGuesses(lines[..|lines| - |r.unread|])
    decreases MaxAttempts - attempt, 0
  {
    var n := FirstValid(lines);
    var guess := ParseGuess(lines[n]);
    var grade := GradeGuess(answer, guess);
    var rounds' := rounds + [Round(guess, grade)];
    var r := Play(answer, lines[n + 1..], attempt + 1, grade == Win, rounds');
    PlayStep(answer, lines, attempt, rounds);
    RoundsFromValidLines(answer, lines[n + 1..], attempt + 1, grade == Win, rounds');
    if r.Finished? {
      GuessesAppend(rounds, Round(guess, grade));
      GradedThrough(lines, n, |r.unread|, Guesses(rounds), Guesses(r.rounds));
    }
  }

  /** The step of `RoundsFromValidLines` that grades the first valid line, for a game that runs out of input. */
  lemma {:induction false} RoundsStepExhausted(answer: seq<int>, lines: seq<string>, attempt: nat, rounds: seq<Round>)
    requires IsCode(answer) && attempt < MaxAttempts && FirstValid(lines) < |lines|
    ensures var r := Play(answer, lines, attempt, false, rounds);
            r.InputExhausted? ==>
              && Guesses(r.rounds) == Guesses(rounds) + ValidGuesses(lines)
              && |r.rounds| - |rounds| < MaxAttempts - attempt
    decreases MaxAttempts - attempt, 0
  {
    var n := FirstValid(lines);
    var guess := ParseGuess(lines[n]);
    var grade := GradeGuess(answer, guess);
    var rounds' := rounds + [Round(guess, grade)];
    var r := Play(answer, lines[n + 1..], attempt + 1, grade == Win, rounds');
    PlayStep(answer, lines, attempt, rounds);
    RoundsFromValidLines(answer, lines[n + 1..], attempt + 1, grade == Win, rounds');
    if r.InputExhausted? {
      GuessesAppend(rounds, Round(guess, grade));
      GradedAll(lines, n, Guesses(rounds), Guesses(r.rounds));
    }
  }

  /** Regrouping a concatenation of three sequences. */
  lemma ConcatAssoc<T>(a: seq<T>, b: seq<T>, c: seq<T>)
    ensures (a + b) + c == a + (b + c)
  {
  }

  /** The valid guesses read up to an unread rest, split at the valid line `n`. */
  lemma ReadThrough(lines: seq<string>, n: nat, unread: nat)
    requires n < |lines| && unread <= |lines| - n - 1
    ensures ValidGuesses(lines[..|lines| - unread]) ==
            ValidGuesses(lines[..n + 1]) + ValidGuesses(lines[n + 1..][..|lines| - n - 1 - unread])
  {
    assert lines[..|lines| - unread] == lines[..n + 1] + lines[n + 1..][..|lines| - n - 1 - unread];
    ValidGuessesAppend(lines[..n + 1], lines[n + 1..][..|lines| - n - 1 - unread]);
  }

  /**
   Guesses graded as the first valid line and then the valid lines of the
   rest up to `unread` are the valid guesses of `lines` up to `unread`.
   */
  lemma GradedThrough(lines: seq<string>, n: nat, unread: nat, before: seq<seq<int>>, after: seq<seq<int>>)
    requires n < |lines| && ValidateGuess(lines[n]) && unread <= |lines| - n - 1
    requires forall j :: 0 <= j < n ==> !ValidateGuess(lines[j])
    requires after == (before + [ParseGuess(lines[n])]) + ValidGuesses(lines[n + 1..][..|lines| - n - 1 - unread])
    ensures after == before + ValidGuesses(lines[..|lines| - unread])
  {
    var first, rest := ValidGuesses(lines[..n + 1]), ValidGuesses(lines[n + 1..][..|lines| - n - 1 - unread]);
    ValidGuessesToFirst(lines, n);
    ReadThrough(lines, n, unread);
    ConcatAssoc(before, first, rest);
  }

  /** The same for a game that read every line. */
  lemma GradedAll(lines: seq<string>, n: nat, before: seq<seq<int>>, after: seq<seq<int>>)
    requires n < |lines| && ValidateGuess(lines[n])
    requires forall j :: 0 <= j < n ==> !ValidateGuess(lines[j])
    requires after == (before + [ParseGuess(lines[n])]) + ValidGuesses(lines[n + 1..])
    ensures after == before + ValidGuesses(lines)
  {
    var first, rest := ValidGuesses(lines[..n + 1]), ValidGuesses(lines[n + 1..]);
    ValidGuessesToFirst(lines, n);
    ReadAll(lines, n);
    ConcatAssoc(before, first, rest);
  }

  /** The valid guesses of all lines, split at the valid line `n`. */
  lemma ReadAll(lines: seq<string>, n: nat)
    requires n < |lines|
    ensures ValidGuesses(lines) == ValidGuesses(lines[..n + 1]) + ValidGuesses(lines[n + 1..])
  {
    assert lines == lines[..n + 1] + lines[n + 1..];
    ValidGuessesAppend(lines[..n + 1], lines[n + 1..]);
  }

  /**
   What the game prints, against its input: one round per valid line read,
   in order, each carrying the grade `GradeGuess` gives that line's guess.
   A finished game read up to its unread rest; running out of input means
   fewer valid lines were typed than there are attempts.
   */
  lemma GameRounds(answer: seq<int>, lines: seq<string>)
    requires IsCode(answer)
    ensures forall j :: 0 <= j < |GameLoop(answer, lines).rounds| ==> Graded(answer, GameLoop(answer, lines).rounds[j])
    ensures var r := GameLoop(answer, lines);
            r.Finished? ==>
              |r.unread| <= |lines| && Guesses(r.rounds) == ValidGuesses(lines[..|lines| - |r.unread|])
    ensures var r := GameLoop(answer, lines);
            r.InputExhausted? ==> Guesses(r.rounds) == ValidGuesses(lines) && |ValidGuesses(lines)| < MaxAttempts
  {
    PlayKeepsConsistent(answer, lines, 0, false, []);
    RoundsFromValidLines(answer, lines, 0, false, []);
    assert Guesses([]) == [];
  }
}
