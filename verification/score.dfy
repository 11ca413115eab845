/**
 Reference definitions of what the grade counts, independent of the
 slot-consuming passes, and the lemmas tying `Grader.GradeGuess` to them.

 The grade is `k` hits followed by `m` nears, where `k` is the number of
 positions at which guess and answer agree and `m` sums, over every digit
 value, the smaller of how often it occurs in the whole guess and how often
 it occurs in the answer at positions that are not exact matches. The guess
 side counts all four positions, exact ones included, because the second
 pass revisits them; hence the score is not symmetric in its arguments.
 */
module Score {
  import opened Codes
  import opened Grader

  /** Number of positions at which `a` and `g` hold the same digit. */
  function ExactCount(a: seq<int>, g: seq<int>): nat
    requires |a| == |g|
  {
    if |a| == 0 then 0
    else (if a[0] == g[0] then 1 else 0) + ExactCount(a[1..], g[1..])
  }

  /** The digits of `a` at positions where `g` differs, in order. */
  function NonExact(a: seq<int>, g: seq<int>): seq<int>
    requires |a| == |g|
  {
    if |a| == 0 then []
    else (if a[0] == g[0] then [] else [a[0]]) + NonExact(a[1..], g[1..])
  }

  /** `a` with every exactly matched position overwritten by the sentinel. */
  function Masked(a: seq<int>, g: seq<int>): (r: seq<int>)
    requires |a| == |g|
    ensures |r| == |a|
    ensures forall j :: 0 <= j < |a| ==> r[j] == if a[j] == g[j] then Consumed else a[j]
  {
    if |a| == 0 then []
    else [if a[0] == g[0] then Consumed else a[0]] + Masked(a[1..], g[1..])
  }

  /** How many nears digit `v` can earn: guess occurrences against pool occurrences. */
  function Shared(g: seq<int>, pool: seq<int>, v: int): nat {
    Min(Count(g, v), Count(pool, v))
  }

  /** `Shared` summed over the digit values 1 .. n. */
  function Overlap(g: seq<int>, pool: seq<int>, n: int): nat
    decreases n
  {
    if n < MinDigit then 0 else Overlap(g, pool, n - 1) + Shared(g, pool, n)
  }

  /** Number of `-` symbols the grade carries. */
  function PartialCount(a: seq<int>, g: seq<int>): nat
    requires |a| == |g|
  {
    Overlap(g, NonExact(a, g), MaxDigit)
  }

  /** The grade as the reference definitions describe it. */
  function Expected(a: seq<int>, g: seq<int>): string
    requires |a| == |g|
  {
    Repeat(Hit, ExactCount(a, g)) + Repeat(Near, PartialCount(a, g))
  }

  lemma {:induction false} ExactCountBound(a: seq<int>, g: seq<int>)
    requires |a| == |g|
    ensures ExactCount(a, g) <= |a|
    ensures ExactCount(a, g) == |a| <==> a == g
  {
    if |a| != 0 {
      ExactCountBound(a[1..], g[1..]);
      if a[1..] == g[1..] && a[0] == g[0] {
        assert a == [a[0]] + a[1..] && g == [g[0]] + g[1..];
      }
    }
  }

  lemma {:induction false} NonExactLength(a: seq<int>, g: seq<int>)
    requires |a| == |g|
    ensures |NonExact(a, g)| + ExactCount(a, g) == |a|
  {
    if |a| != 0 {
      NonExactLength(a[1..], g[1..]);
    }
  }

  /** Masking and filtering keep the same digits, apart from the sentinel. */
  lemma {:induction false} MaskedCounts(a: seq<int>, g: seq<int>, v: int)
    requires |a| == |g|
    requires v != Consumed
    ensures Count(Masked(a, g), v) == Count(NonExact(a, g), v)
  {
    if |a| != 0 {
      MaskedCounts(a[1..], g[1..], v);
      assert Masked(a, g) == [if a[0] == g[0] then Consumed else a[0]] + Masked(a[1..], g[1..]);
    }
  }

  /**
   When every per-digit share changes by the same amount as on the right,
   except for one extra unit at digit `x` when `hit` holds, the sums differ
   by that one unit.
   */
  lemma {:induction false} OverlapShift(g: seq<int>, pool: seq<int>, g': seq<int>, pool': seq<int>,
                                        x: int, hit: bool, n: int)
    requires forall v :: MinDigit <= v <= n ==>
               Shared(g, pool, v) == Shared(g', pool', v) + (if hit && v == x then 1 else 0)
    ensures Overlap(g, pool, n) == Overlap(g', pool', n) + (if hit && MinDigit <= x <= n then 1 else 0)
    decreases n
  {
    if n >= MinDigit {
      OverlapShift(g, pool, g', pool', x, hit, n - 1);
    }
  }

  lemma {:induction false} OverlapEmptyPool(g: seq<int>, n: int)
    ensures Overlap(g, [], n) == 0
    decreases n
  {
    if n >= MinDigit {
      OverlapEmptyPool(g, n - 1);
    }
  }

  /** The first pass appends one hit per agreeing position from `i` on and masks exactly those slots. */
  lemma {:induction false} ExactPassEffect(answer: seq<int>, guess: seq<int>, i: nat, s: Scratch)
    requires |answer| == |guess| == |s.copy| == CodeLength
    requires i <= CodeLength
    ensures ExactPass(answer, guess, i, s).grade == s.grade + Repeat(Hit, ExactCount(answer[i..], guess[i..]))
    ensures forall j :: 0 <= j < CodeLength ==>
              ExactPass(answer, guess, i, s).copy[j] == if i <= j && answer[j] == guess[j] then Consumed else s.copy[j]
    decreases CodeLength - i
  {
    if i < CodeLength {
      var hit := answer[i] == guess[i];
      var s' := if hit then Scratch(s.copy[i := Consumed], s.grade + [Hit]) else s;
      ExactPassEffect(answer, guess, i + 1, s');
      assert answer[i..][1..] == answer[i + 1..] && guess[i..][1..] == guess[i + 1..];
      var k := ExactCount(answer[i + 1..], guess[i + 1..]);
      if hit {
        assert s.grade + [Hit] + Repeat(Hit, k) == s.grade + Repeat(Hit, k + 1);
      }
    }
  }

  /** The second pass from `i` appends exactly `Overlap(guess[i..], copy)` nears. */
  lemma {:induction false} PartialPassEffect(guess: seq<int>, i: nat, s: Scratch)
    requires IsCode(guess) && |s.copy| == CodeLength
    requires i <= CodeLength
    ensures PartialPass(guess, i, s).grade == s.grade + Repeat(Near, Overlap(guess[i..], s.copy, MaxDigit))
    decreases CodeLength - i
  {
    if i == CodeLength {
      OverlapEmptyGuess(s.copy, MaxDigit);
    } else if Contains(s.copy, guess[i]) != -1 {
      PartialPassHit(guess, i, s);
    } else {
      assert PartialPass(guess, i, s) == PartialPass(guess, i + 1, s);
      PartialPassEffect(guess, i + 1, s);
      MissOverlap(guess, i, s.copy);
    }
  }

  /** The step of `PartialPassEffect` where guess position `i` finds a slot. */
  lemma {:induction false} PartialPassHit(guess: seq<int>, i: nat, s: Scratch)
    requires IsCode(guess) && |s.copy| == CodeLength
    requires i < CodeLength && Contains(s.copy, guess[i]) != -1
    ensures PartialPass(guess, i, s).grade == s.grade + Repeat(Near, Overlap(guess[i..], s.copy, MaxDigit))
    decreases CodeLength - i, 0
  {
    var slot := Contains(s.copy, guess[i]);
    var s' := Scratch(s.copy[slot := Consumed], s.grade + [Near]);
    PartialPassStep(guess, i, s);
    PartialPassEffect(guess, i + 1, s');
    HitOverlap(guess, i, s.copy, slot);
    AppendRepeat(s.grade, Near, Overlap(guess[i + 1..], s'.copy, MaxDigit));
  }

  /** Guess position `i` finding a slot consumes it, notes a near and moves on. */
  lemma PartialPassStep(guess: seq<int>, i: nat, s: Scratch)
    requires IsCode(guess) && |s.copy| == CodeLength
    requires i < CodeLength && Contains(s.copy, guess[i]) != -1
    ensures var slot := Contains(s.copy, guess[i]);
            PartialPass(guess, i, s) == PartialPass(guess, i + 1, Scratch(s.copy[slot := Consumed], s.grade + [Near]))
  {
  }

  /** Guess position `i` consuming `slot` accounts for exactly one unit of the overlap. */
  lemma HitOverlap(guess: seq<int>, i: nat, copy: seq<int>, slot: int)
    requires IsCode(guess) && i < CodeLength
    requires 0 <= slot < |copy| && copy[slot] == guess[i]
    ensures Overlap(guess[i..], copy, MaxDigit) == Overlap(guess[i + 1..], copy[slot := Consumed], MaxDigit) + 1
  {
    var x, rest := guess[i], guess[i + 1..];
    assert guess[i..] == [x] + rest;
    HitShares(x, rest, copy, slot);
    OverlapShift([x] + rest, copy, rest, copy[slot := Consumed], x, true, MaxDigit);
  }

  /** Guess position `i` finding no slot leaves the overlap unchanged. */
  lemma MissOverlap(guess: seq<int>, i: nat, copy: seq<int>)
    requires IsCode(guess) && i < CodeLength
    requires guess[i] !in copy
    ensures Overlap(guess[i..], copy, MaxDigit) == Overlap(guess[i + 1..], copy, MaxDigit)
  {
    var x, rest := guess[i], guess[i + 1..];
    assert guess[i..] == [x] + rest;
    MissShares(x, rest, copy);
    OverlapShift([x] + rest, copy, rest, copy, x, false, MaxDigit);
  }

  lemma AppendRepeat(prefix: string, c: char, n: nat)
    ensures prefix + [c] + Repeat(c, n) == prefix + Repeat(c, n + 1)
  {
  }

  /** A near on digit `x` takes one unit from that digit's share only. */
  lemma HitShares(x: int, rest: seq<int>, copy: seq<int>, slot: int)
    requires InRange(x) && 0 <= slot < |copy| && copy[slot] == x
    ensures forall v :: MinDigit <= v <= MaxDigit ==>
              Shared([x] + rest, copy, v) == Shared(rest, copy[slot := Consumed], v) + (if v == x then 1 else 0)
  {
  }

  /** A guess digit absent from the copy earns nothing and changes no share. */
  lemma MissShares(x: int, rest: seq<int>, copy: seq<int>)
    requires x !in copy
    ensures forall v :: MinDigit <= v <= MaxDigit ==> Shared([x] + rest, copy, v) == Shared(rest, copy, v)
  {
  }

  lemma {:induction false} OverlapEmptyGuess(pool: seq<int>, n: int)
    ensures Overlap([], pool, n) == 0
    decreases n
  {
    if n >= MinDigit {
      OverlapEmptyGuess(pool, n - 1);
    }
  }

  /** Consuming a slot removes one occurrence of its digit and touches no other digit. */
  lemma ConsumeCount(copy: seq<int>, slot: int, v: int)
    requires 0 <= slot < |copy|
    ensures Count(copy[slot := Consumed], v) ==
            Count(copy, v) - (if v == copy[slot] then 1 else 0) + (if v == Consumed then 1 else 0)
  {
  }

  /** From the start, the first pass yields the masked answer and `ExactCount` hits. */
  lemma ExactPassResult(answer: seq<int>, guess: seq<int>)
    requires IsCode(answer) && IsCode(guess)
    ensures ExactPass(answer, guess, 0, Scratch(answer, "")) == Scratch(Masked(answer, guess), Repeat(Hit, ExactCount(answer, guess)))
  {
    var s := ExactPass(answer, guess, 0, Scratch(answer, ""));
    ExactPassEffect(answer, guess, 0, Scratch(answer, ""));
    assert answer[0..] == answer && guess[0..] == guess;
    assert s.copy == Masked(answer, guess);
  }

  /** Near counting against the masked answer equals counting against the non-exact digits. */
  lemma MaskedOverlap(answer: seq<int>, guess: seq<int>)
    requires IsCode(answer) && IsCode(guess)
    ensures Overlap(guess, Masked(answer, guess), MaxDigit) == PartialCount(answer, guess)
  {
    forall v | MinDigit <= v <= MaxDigit
      ensures Shared(guess, Masked(answer, guess), v) == Shared(guess, NonExact(answer, guess), v)
    {
      MaskedCounts(answer, guess, v);
    }
    OverlapShift(guess, Masked(answer, guess), guess, NonExact(answer, guess), 0, false, MaxDigit);
  }

  /**
   The grade is `ExactCount` hits followed by `PartialCount` nears: never
   interleaved, with both counts given by the reference definitions.
   */
  lemma GradeGuessFormula(answer: seq<int>, guess: seq<int>)
    requires IsCode(answer) && IsCode(guess)
    ensures GradeGuess(answer, guess) == Expected(answer, guess)
  {
    ExactPassResult(answer, guess);
    var s := ExactPass(answer, guess, 0, Scratch(answer, ""));
    PartialPassEffect(guess, 0, s);
    assert guess[0..] == guess;
    MaskedOverlap(answer, guess);
  }

  /** Each hit overwrites a slot that still held an answer digit. */
  lemma {:induction false} ExactPassConsumes(answer: seq<int>, guess: seq<int>, i: nat, s: Scratch)
    requires IsCode(answer) && IsCode(guess) && |s.copy| == CodeLength
    requires i <= CodeLength
    requires forall j :: i <= j < CodeLength ==> s.copy[j] == answer[j]
    ensures Count(ExactPass(answer, guess, i, s).copy, Consumed) - Count(s.copy, Consumed) ==
            |ExactPass(answer, guess, i, s).grade| - |s.grade|
    decreases CodeLength - i
  {
    if i < CodeLength {
      if answer[i] == guess[i] {
        var s' := Scratch(s.copy[i := Consumed], s.grade + [Hit]);
        ConsumeCount(s.copy, i, Consumed);
        ExactPassConsumes(answer, guess, i + 1, s');
      } else {
        ExactPassConsumes(answer, guess, i + 1, s);
      }
    }
  }

  /** Each near overwrites a slot that still held a digit equal to the guess digit. */
  lemma {:induction false} PartialPassConsumes(guess: seq<int>, i: nat, s: Scratch)
    requires IsCode(guess) && |s.copy| == CodeLength
    requires i <= CodeLength
    ensures Count(PartialPass(guess, i, s).copy, Consumed) - Count(s.copy, Consumed) ==
            |PartialPass(guess, i, s).grade| - |s.grade|
    decreases CodeLength - i
  {
    if i < CodeLength {
      var slot := Contains(s.copy, guess[i]);
      if slot != -1 {
        var s' := Scratch(s.copy[slot := Consumed], s.grade + [Near]);
        assert PartialPass(guess, i, s) == PartialPass(guess, i + 1, s');
        ConsumeCount(s.copy, slot, Consumed);
        PartialPassConsumes(guess, i + 1, s');
      } else {
        assert PartialPass(guess, i, s) == PartialPass(guess, i + 1, s);
        PartialPassConsumes(guess, i + 1, s);
      }
    }
  }

  /**
   Every symbol of the grade stands for its own consumed slot of the answer
   copy, so there are never more than four symbols.
   */
  lemma GradeConsumesSlots(answer: seq<int>, guess: seq<int>)
    requires IsCode(answer) && IsCode(guess)
    ensures |GradeGuess(answer, guess)| == Count(Grade(answer, guess).copy, Consumed)
    ensures |GradeGuess(answer, guess)| <= CodeLength
  {
    var s0 := Scratch(answer, "");
    assert Consumed !in answer;
    ExactPassConsumes(answer, guess, 0, s0);
    PartialPassConsumes(guess, 0, ExactPass(answer, guess, 0, s0));
    var final := Grade(answer, guess).copy;
    assert Count(final, Consumed) <= |multiset(final)| == |final|;
  }

  /** Hits plus nears never exceed four. */
  lemma CountsBound(answer: seq<int>, guess: seq<int>)
    requires IsCode(answer) && IsCode(guess)
    ensures ExactCount(answer, guess) + PartialCount(answer, guess) <= CodeLength
  {
    GradeConsumesSlots(answer, guess);
    GradeGuessFormula(answer, guess);
  }

  /** A grade of only hits and nears reads `++++` only when it is four hits. */
  lemma WinShape(k: nat, m: nat)
    requires Repeat(Hit, k) + Repeat(Near, m) == Win
    ensures k == CodeLength && m == 0
  {
    var w := Repeat(Hit, k) + Repeat(Near, m);
    assert w[CodeLength - 1] == if m > 0 then Near else Hit;
  }

  /** The guess equal to the answer is graded `++++`. */
  lemma EqualGuessWins(answer: seq<int>)
    requires IsCode(answer)
    ensures GradeGuess(answer, answer) == Win
  {
    GradeGuessFormula(answer, answer);
    ExactCountBound(answer, answer);
    NonExactLength(answer, answer);
    assert NonExact(answer, answer) == [];
    OverlapEmptyPool(answer, MaxDigit);
    assert Repeat(Hit, CodeLength) == Win;
  }

  /** The grade is the winning `++++` exactly when the guess equals the answer. */
  lemma WinIffEqual(answer: seq<int>, guess: seq<int>)
    requires IsCode(answer) && IsCode(guess)
    ensures GradeGuess(answer, guess) == Win <==> guess == answer
  {
    if guess == answer {
      EqualGuessWins(answer);
    } else if GradeGuess(answer, guess) == Win {
      GradeGuessFormula(answer, guess);
      WinShape(ExactCount(answer, guess), PartialCount(answer, guess));
      ExactCountBound(answer, guess);
    }
  }
}
