/**
 Checking and converting one line of player input, as `validateGuess` and
 `parseGuess` do. A character's numeric value is taken for ASCII only: the
 ten ASCII digits have their value and every other character counts as not
 numeric (-1).
 */
module Input {
  import opened Codes

  /** The numeric value of an ASCII digit, or -1 for any other character. */
  function NumericValue(c: char): (v: int)
    ensures v == -1 || (0 <= v <= 9 && DigitChar(v) == c)
    ensures v == -1 <==> !('0' <= c <= '9')
  {
    if '0' <= c <= '9' then c as int - '0' as int else -1
  }

  /** The character that displays a single decimal digit. */
  function DigitChar(d: int): char
    requires 0 <= d <= 9
  {
    ('0' as int + d) as char
  }

  /** A line is a guess when it has four characters, each a digit 1 to 6. */
  function ValidateGuess(line: string): (ok: bool)
    ensures ok <==> |line| == CodeLength && forall i :: 0 <= i < |line| ==> '1' <= line[i] <= '6'
  {
    if |line| != CodeLength then false else DigitsInRange(line, 0)
  }

  /** Every character of `line` from index `i` on has a numeric value in 1 .. 6. */
  function DigitsInRange(line: string, i: nat): (ok: bool)
    requires i <= |line|
    ensures ok <==> forall j :: i <= j < |line| ==> '1' <= line[j] <= '6'
    decreases |line| - i
  {
    if i == |line| then true
    else InRange(NumericValue(line[i])) && DigitsInRange(line, i + 1)
  }

  /**
   The four numeric values of the first four characters. On a valid line
   this is a well-formed guess that displays as the line itself.
   */
  function ParseGuess(line: string): (guess: seq<int>)
    requires |line| >= CodeLength
    ensures |guess| == CodeLength
    ensures ValidateGuess(line) ==> IsCode(guess) && ShowCode(guess) == line
  {
    seq(CodeLength, i requires 0 <= i < CodeLength => NumericValue(line[i]))
  }

  /** The text a code is typed as: one digit character per element. */
  function ShowCode(code: seq<int>): (line: string)
    requires forall i :: 0 <= i < |code| ==> 0 <= code[i] <= 9
    ensures |line| == |code|
  {
    seq(|code|, i requires 0 <= i < |code| => DigitChar(code[i]))
  }

  /** Typing any well-formed code gives a valid line that parses back to it. */
  lemma ShowParseRoundTrip(code: seq<int>)
    requires IsCode(code)
    ensures ValidateGuess(ShowCode(code))
    ensures ParseGuess(ShowCode(code)) == code
  {
  }
}
