# Mastermind scorer and game loop in Dafny

A model of the console Mastermind game in `mastermind/Program.cs`: the
secret answer is four digits 1–6; the player types guesses; each valid
guess is graded with a string of `+` and `-`; the player has ten attempts
and stops guessing once a grade is `++++`. The program's header comment
(mastermind/Program.cs:6-8) promises one `+` per digit right in value and
position and one `-` per digit right in value only. The code grades
differently, as described below, and the model follows the code.

The model follows the code rather than textbook Mastermind:

- `contains` returns the *last* index holding a value, or -1.
- `gradeGuess` works on a private copy of the answer. The first pass marks
  exact matches in the copy with the sentinel -1 and appends `+`. The second
  pass visits **all four** guess positions, exact ones included, and for
  each consumes the last unconsumed copy slot with the same digit and
  appends `-`.
- Because exact guess positions are visited again, one guess digit can earn
  a hit and a near: answer `[1,1,1,1]` against guess `[1,1,2,3]` grades
  `++--`. The grade is not symmetric either: answer `[1,2,1,3]` against
  `[1,4,4,4]` grades `+-`, the swapped pair grades `+`. The natural
  reading of the scorer is that the near count is symmetric, a function of
  the multiset intersection of the two codes. That reading does not hold of
  the code, and the model states what the code does (`ScoringCases`).
- The near count proved here is the sum over digit values `v` of
  `min(occurrences of v in the whole guess, occurrences of v in the answer at
  non-exact positions)` (`Score.PartialCount`).

Modules:

- `Codes` (codes.dfy): the shape of an answer or guess, and counting helpers.
- `Grader` (grader.dfy): `Contains` and the two passes of `gradeGuess`.
  These are pure functions over a `Scratch` state, which holds the answer copy
  and the grade so far. `Grade` is one whole run; `GradeGuess` is its grade.
- `GraderArrays` (grader_arrays.dfy): the same scorer over arrays,
  statement by statement. It has no `modifies` clause, so it provably leaves
  `answer` and `guess` unchanged.
- `Score` (score.dfy): reference definitions of the hit and near counts and
  the lemmas tying the passes to them.
- `Input` (input.dfy): `validateGuess` and `parseGuess`.
- `Game` (game.dfy): `gameLoop` as a fold over the sequence of lines the
  player types. The result is either `Finished(won, rounds, unread)` or
  `InputExhausted(rounds)`. `ValidGuesses` is an independent reference for
  the rounds: the guesses that the valid lines spell, in input order.
- `ScoringCases`, `GameCases`: worked examples on concrete inputs.

## Model

| member | source | states |
|---|---|---|
| Grader.Contains | mastermind/Program.cs:186-196 | returns -1 exactly when the value does not occur; otherwise an index holding the value with no later index holding it (the largest such index) |
| Grader.ExactPass | mastermind/Program.cs:162-167 | the first pass; its own ensures says only that the copy keeps four slots. What it computes is stated by `Score.ExactPassEffect` and `Score.ExactPassResult` |
| Grader.PartialPass | mastermind/Program.cs:170-176 | the second pass; its own ensures says only that the copy keeps four slots. What it computes is stated by `Score.PartialPassEffect` and `Score.PartialPassConsumes` |
| Grader.Grade | mastermind/Program.cs:154-179 | one run of `gradeGuess` (copy, then both passes); its own ensures says only that the final copy has four slots. It is characterised by `Score.GradeGuessFormula` and `Score.GradeConsumesSlots` |
| Grader.GradeGuess | mastermind/Program.cs:154-179 | `gradeGuess` itself: no ensures. It is characterised by `Score.GradeGuessFormula`, `Score.WinIffEqual` and `GraderArrays.GradeGuessOnArrays` |
| Grader.ScanFrom | mastermind/Program.cs:189-193 | the forward scan that keeps the most recent match yields that same last index, or -1 when the value is absent |
| GraderArrays.ContainsIndex | mastermind/Program.cs:186-196 | the array loop of `contains` returns -1 exactly when the value is absent, otherwise the largest index holding it |
| GraderArrays.GradeGuessOnArrays | mastermind/Program.cs:154-179 | the array version with its private copy returns the same grade as the functional scorer, and cannot modify `answer` or `guess` |
| Score.ExactPassEffect | mastermind/Program.cs:162-167 | the first pass appends one `+` per position where answer and guess agree, and overwrites exactly those copy slots with -1 |
| Score.PartialPassEffect | mastermind/Program.cs:170-176 | the second pass appends as many `-` as the sum over digits of min(occurrences in the remaining guess positions, occurrences in the copy) |
| Score.HitOverlap | mastermind/Program.cs:171-175 | a guess digit that finds a slot consumes exactly one unit of that per-digit overlap |
| Score.MissOverlap | mastermind/Program.cs:171-172 | a guess digit that finds no slot changes neither the copy nor the overlap |
| Score.ConsumeCount | mastermind/Program.cs:173 | consuming a slot removes one occurrence of its digit, adds one sentinel, and leaves every other digit's count alone |
| Score.ExactPassResult | mastermind/Program.cs:157-167 | after the first pass the copy is the answer with exact positions masked, and the grade is ExactCount hits |
| Score.MaskedCounts | mastermind/Program.cs:157-167 | the masked copy holds each digit as often as the answer does at non-exact positions |
| Score.GradeGuessFormula | mastermind/Program.cs:154-179 | the grade is ExactCount `+` followed by PartialCount `-`, never interleaved: ExactCount counts the agreeing positions, and PartialCount sums over digits min(count in the whole guess, count in the answer at non-exact positions) |
| Score.ExactCountBound | mastermind/Program.cs:162-167 | the number of agreeing positions is at most four, and it is four exactly when guess equals answer |
| Score.GradeConsumesSlots | mastermind/Program.cs:162-176 | the grade's length equals the number of -1 slots in the final copy, so it is at most four |
| Score.CountsBound | mastermind/Program.cs:162-176 | hits plus nears, as the reference definitions count them, is at most four |
| Score.ExactPassConsumes | mastermind/Program.cs:162-167 | each `+` overwrites a copy slot that still held an answer digit |
| Score.PartialPassConsumes | mastermind/Program.cs:170-176 | each `-` overwrites a copy slot that still held a digit, never an already consumed one |
| Score.EqualGuessWins | mastermind/Program.cs:162-176 | a guess equal to the answer is graded `++++` |
| Score.WinIffEqual | mastermind/Program.cs:154-179 | the grade is `++++` exactly when the guess equals the answer |
| ScoringCases.DuplicateDigits | mastermind/Program.cs:154-179 | answer [1,1,2,3], guess [1,1,1,1] grades `++` |
| ScoringCases.AllNear | mastermind/Program.cs:154-179 | answer [1,2,3,4], guess [4,3,2,1] grades `----` |
| ScoringCases.Disjoint | mastermind/Program.cs:154-179 | answer [1,2,3,4], guess [5,5,5,5] grades the empty string |
| ScoringCases.NotSymmetric | mastermind/Program.cs:170-176 | answer [1,2,1,3], guess [1,4,4,4] grades `+-`, but with the roles swapped the grade is `+` |
| ScoringCases.CreditedTwice | mastermind/Program.cs:170-176 | answer [1,1,1,1], guess [1,1,2,3] grades `++--`: the exactly matched 1s of the guess earn nears as well |
| Input.NumericValue | mastermind/Program.cs:120 | the stand-in for `Char.GetNumericValue` (also used at line 143): -1 exactly for characters outside `0`..`9`, otherwise a value 0..9 whose digit character is the character itself (ASCII only, see below) |
| Input.ValidateGuess | mastermind/Program.cs:108-128 | a line is accepted exactly when it has length 4 and every character is `1`..`6`; any other length is rejected |
| Input.DigitsInRange | mastermind/Program.cs:118-124 | the per-character check holds exactly when every remaining character is `1`..`6` |
| Input.ParseGuess | mastermind/Program.cs:135-147 | yields four numbers; for an accepted line they are a well-formed guess, each the digit at the same position (the guess is typed as the line itself) |
| Input.ShowParseRoundTrip | mastermind/Program.cs:135-147 | typing any well-formed code gives an accepted line that parses back to that code |
| Game.FirstValid | mastermind/Program.cs:42-52 | the re-prompting loop stops at the first valid line, after discarding only invalid ones; it reports the end of input when no line is valid |
| Game.FirstValidFrom | mastermind/Program.cs:48-52 | resuming the re-prompting loop at index `i`, past lines known to be invalid, yields the first valid index at or after `i`, every line before it invalid, or `|lines|` when none is valid |
| Game.Play | mastermind/Program.cs:37-68 | the loop from a given iteration: no ensures. It is characterised by `Game.PlayKeepsConsistent`, `Game.RoundsFromValidLines`, `Game.UnreadIsSuffix` and `Game.WinningLineRead` |
| Game.GameLoop | mastermind/Program.cs:33-72 | `gameLoop` itself: no ensures. It is characterised by `Game.GameRounds` and `Game.GameVerdict` |
| Game.ConsistentStep | mastermind/Program.cs:55-66 | grading one more guess keeps the loop state consistent: the new round carries its grade, and `won` is set exactly when that grade is `++++` |
| Game.PlayKeepsConsistent | mastermind/Program.cs:33-72 | through every iteration: each round holds its guess's grade; only the last round can be `++++`, and `won` says whether it is; with no win, one guess per attempt |
| Game.GameVerdict | mastermind/Program.cs:33-72 | at most ten guesses are graded; the game is won exactly when a graded guess equals the answer, which is then the last one; a lost game graded all ten; running out of input means no guess was right |
| Game.InvalidLinesConsumeNoAttempt | mastermind/Program.cs:45-52 | any run of invalid lines typed while a guess is awaited leaves the game exactly as if they had not been typed |
| Game.WonStops | mastermind/Program.cs:37-39 | once won, the remaining iterations read nothing and the game finishes won |
| Game.UnreadIsSuffix | mastermind/Program.cs:37-68 | a finished game leaves a suffix of the input unread |
| Game.WinningLineRead | mastermind/Program.cs:39-66 | when the game is won, the last line read is the valid line of the winning guess |
| Game.LaterInputIgnored | mastermind/Program.cs:37-40 | lines appended after a finished game change nothing but the unread remainder |
| Game.RoundsFromValidLines | mastermind/Program.cs:37-66 | from any loop state, the guesses graded are those already graded followed by the guesses of the valid lines read, in order; for a finished game these are the lines before its unread rest, and running out of input means every line was read with fewer guesses than the remaining attempts |
| Game.GameRounds | mastermind/Program.cs:33-72 | whether the game is won, lost or runs out of input, its rounds are exactly the valid lines read, in order, each with the grade `gradeGuess` gives it; running out of input means fewer than ten valid lines were typed |
| Game.WinningLineIsLastRead | mastermind/Program.cs:33-72 | in a won game, the last line read is a valid line spelling the answer, and lines after it are never read |
| GameCases.RejectThenWin | mastermind/Program.cs:33-72 | against answer 1234, input "12a4", "123", "1234", "5555" rejects the first two without using an attempt, wins on "1234", and leaves "5555" unread |

## Left out

- `Main` (mastermind/Program.cs:17-31): its win and lose messages are console output. The model returns the verdict instead.
- `takeInput` and all other console reads and writes (mastermind/Program.cs:95-99, 49, 61): input is a sequence of lines and output is the list of graded rounds.
- `generateAnswer` (mastermind/Program.cs:79-88): it depends on a random source. The answer is a parameter, required to be four digits 1–6.
- End of input: `ReadLine` returns null, and `unparsedGuess.Length` at mastermind/Program.cs:112 then throws a NullReferenceException. `gameLoop` never returns, and `Main` prints neither the win nor the lose message. The model does not model the crash. `InputExhausted`, carrying the rounds graded so far, stands in for it.
- Input.ValidateGuess: a character's numeric value is modelled for ASCII only. Non-ASCII characters that .NET gives a numeric value are treated as non-digits, so such lines are rejected. These are Arabic-Indic digits, superscripts, and fractions truncated by the `(int)` cast, which `validateGuess` accepts.
- Input.ParseGuess: requires at least four characters, where `parseGuess` throws on shorter strings. It is only ever called on accepted lines.
- Score.GradeGuessFormula: answer and guess are required to be four digits 1–6. A guess value of -1 would match consumed copy slots in `gradeGuess`. Such a guess cannot be built from an accepted line.
- GraderArrays.GradeGuessOnArrays: arrays of other lengths, where `gradeGuess` would throw or read only the first four entries, are not modelled.
