/**
 The shape shared by the secret answer and every graded guess: four
 digits, each between 1 and 6, plus two small sequence helpers used
 throughout the model.
 */
module Codes {

  /** Number of digits in an answer or a guess. */
  const CodeLength: nat := 4

  /** Smallest and largest digit value a code may hold. */
  const MinDigit: int := 1
  const MaxDigit: int := 6

  predicate InRange(d: int) {
    MinDigit <= d <= MaxDigit
  }

  /** A well-formed answer or guess. */
  predicate IsCode(s: seq<int>) {
    |s| == CodeLength && forall i :: 0 <= i < |s| ==> InRange(s[i])
  }

  /** How many times `v` occurs in `s`. */
  function Count(s: seq<int>, v: int): nat {
    multiset(s)[v]
  }

  /** `n` copies of the character `c`. */
  function Repeat(c: char, n: nat): (r: string)
    ensures |r| == n
    ensures forall i :: 0 <= i < n ==> r[i] == c
  {
    seq(n, _ => c)
  }

  function Min(a: int, b: int): int {
    if a <= b then a else b
  }
}
