/**
 The scorer of a guess against the secret answer, following the two passes
 of `gradeGuess` in mastermind/Program.cs. Both passes consume slots of a
 private copy of the answer by overwriting them with a sentinel; the grade
 string grows by one `+` or `-` per consumed slot.
 */
module Grader {
  import opened Codes

  /** Symbol for a digit right in value and position. */
  const Hit: char := '+'
  /** Symbol for a digit right in value only. */
  const Near: char := '-'
  /** Value written into a slot of the answer copy once it is consumed. */
  const Consumed: int := -1

  /** The grade reported for a guess that equals the answer. */
  const Win: string := "++++"

  /** The working state of the scorer: the answer copy and the grade so far. */
  datatype Scratch = Scratch(copy: seq<int>, grade: string)

  /**
   Last index holding `v` in `a`, or -1 when `v` does not occur: a forward
   scan that remembers the most recent match, as `contains` does.
   */
  function Contains(a: seq<int>, v: int): (r: int)
    ensures -1 <= r < |a|
    ensures r == -1 <==> v !in a
    ensures r != -1 ==> a[r] == v && forall j :: r < j < |a| ==> a[j] != v
  {
    ScanFrom(a, v, 0, -1)
  }

  /** The scan of `Contains` from index `i`, with `found` the last match before `i`. */
  function ScanFrom(a: seq<int>, v: int, i: nat, found: int): (r: int)
    requires i <= |a|
    requires found == -1 || (0 <= found < i && a[found] == v)
    requires forall j :: found < j < i ==> a[j] != v
    ensures -1 <= r < |a|
    ensures r == -1 <==> v !in a
    ensures r != -1 ==> a[r] == v && forall j :: r < j < |a| ==> a[j] != v
    decreases |a| - i
  {
    if i == |a| then found
    else ScanFrom(a, v, i + 1, if a[i] == v then i else found)
  }

  /**
   First pass from position `i`: every position where guess and answer agree
   appends a `+` and consumes that slot of the copy.
   */
  function ExactPass(answer: seq<int>, guess: seq<int>, i: nat, s: Scratch): (r: Scratch)
    requires |answer| == |guess| == |s.copy| == CodeLength
    requires i <= CodeLength
    ensures |r.copy| == CodeLength
    decreases |answer| - i
  {
    if i == CodeLength then s
    else if answer[i] == guess[i] then
      ExactPass(answer, guess, i + 1, Scratch(s.copy[i := Consumed], s.grade + [Hit]))
    else
      ExactPass(answer, guess, i + 1, s)
  }

  /**
   Second pass from position `i`: for every guess position, including those
   already graded `+`, the last unconsumed copy slot holding the same digit
   is consumed and a `-` appended.
   */
  function PartialPass(guess: seq<int>, i: nat, s: Scratch): (r: Scratch)
    requires |guess| == |s.copy| == CodeLength
    requires i <= CodeLength
    ensures |r.copy| == CodeLength
    decreases |guess| - i
  {
    if i == CodeLength then s
    else
      var slot := Contains(s.copy, guess[i]);
      if slot != -1 then
        PartialPass(guess, i + 1, Scratch(s.copy[slot := Consumed], s.grade + [Near]))
      else
        PartialPass(guess, i + 1, s)
  }

  /**
   One run of `gradeGuess`: both passes over a fresh copy of the answer.
   The result holds the final copy and the grade string it returns.
   */
  function Grade(answer: seq<int>, guess: seq<int>): (r: Scratch)
    requires IsCode(answer) && IsCode(guess)
    ensures |r.copy| == CodeLength
  {
    PartialPass(guess, 0, ExactPass(answer, guess, 0, Scratch(answer, "")))
  }

  /** The grade string `gradeGuess` returns for `guess` against `answer`. */
  function GradeGuess(answer: seq<int>, guess: seq<int>): (grade: string)
    requires IsCode(answer) && IsCode(guess)
  {
    Grade(answer, guess).grade
  }
}
