/**
 The scoring engine of the typing test: how a submitted word is scored
 against its target, the words-per-minute and accuracy figures, and the
 per-character status shown for the word being typed. All of it is pure.
 */
module Scoring {

  /** Length of a session in seconds. */
  const TimeLimit: int := 30

  function Max(a: int, b: int): (m: int)
    ensures m >= a && m >= b && (m == a || m == b)
  {
    if a >= b then a else b
  }

  /** The positions of `target` at which `typed` holds the same character.
      Positions past the end of `typed` never match. */
  function MatchPositions(typed: string, target: string): set<nat>
  {
    set i: nat | i < |target| && i < |typed| && typed[i] == target[i]
  }

  /** The number of characters of `target` that `typed` gets right, counted
      position by position (the target's characters, filtered by whether the
      typed word has the same character at the same index). */
  function MatchCount(typed: string, target: string): (n: nat)
    ensures n <= |target| && n <= |typed|
    decreases |target|
  {
    if target == [] then 0
    else
      var k := |target| - 1;
      MatchCount(typed, target[..k]) + (if k < |typed| && typed[k] == target[k] then 1 else 0)
  }

  /** MatchCount counts exactly the matching positions. */
  lemma {:induction false} MatchCountCountsPositions(typed: string, target: string)
    ensures MatchCount(typed, target) == |MatchPositions(typed, target)|
    decreases |target|
  {
    if target != [] {
      var k := |target| - 1;
      var shorter := target[..k];
      MatchCountCountsPositions(typed, shorter);
      var before := MatchPositions(typed, shorter);
      assert forall i :: 0 <= i < k ==> shorter[i] == target[i];
      if k < |typed| && typed[k] == target[k] {
        assert MatchPositions(typed, target) == before + {k};
        assert k !in before;
      } else {
        assert MatchPositions(typed, target) == before;
      }
    }
  }

  /** Every character of `target` is matched exactly when `target` is a prefix
      of `typed`. */
  lemma {:induction false} MatchCountFull(typed: string, target: string)
    ensures MatchCount(typed, target) == |target|
            <==> |target| <= |typed| && typed[..|target|] == target
    decreases |target|
  {
    if target != [] {
      var k := |target| - 1;
      var shorter := target[..k];
      MatchCountFull(typed, shorter);
      if MatchCount(typed, target) == |target| {
        assert typed[..k] == shorter;
        assert typed[..|target|] == typed[..k] + [typed[k]];
        assert target == shorter + [target[k]];
      }
      if |target| <= |typed| && typed[..|target|] == target {
        assert typed[..k] == typed[..|target|][..k];
        assert typed[k] == typed[..|target|][k];
      }
    }
  }

  /** A submitted word earns as many correct characters as it is charged
      (the longer of the two lengths) exactly when it equals its target. */
  lemma ScoreFullIffEqual(typed: string, target: string)
    ensures MatchCount(typed, target) == Max(|typed|, |target|) <==> typed == target
  {
    MatchCountFull(typed, target);
  }

  /** `Math.round(a / b)` on exact rationals: the integer nearest to `a / b`,
      halves rounded up. */
  function RoundHalfUp(a: int, b: int): (r: int)
    requires b != 0
    ensures b > 0 ==> b * (2 * r - 1) <= 2 * a < b * (2 * r + 1)
    ensures b < 0 ==> -b * (2 * r - 1) <= -2 * a < -b * (2 * r + 1)
  {
    if b > 0 then (2 * a + b) / (2 * b) else (-2 * a - b) / (-2 * b)
  }

  /** Words per minute after `TimeLimit - timeLeft` seconds, with the source's
      convention of five characters per word: the nearest integer to
      `correctChars / 5 / elapsed * 60`, and 0 before any time has elapsed. */
  function Wpm(correctChars: int, timeLeft: int): (r: int)
    ensures timeLeft == TimeLimit ==> r == 0
    ensures TimeLimit - timeLeft > 0 ==>
      var elapsed := TimeLimit - timeLeft;
      elapsed * (2 * r - 1) <= 24 * correctChars < elapsed * (2 * r + 1)
  {
    var elapsed := TimeLimit - timeLeft;
    if elapsed == 0 then 0 else RoundHalfUp(60 * correctChars, 5 * elapsed)
  }

  /** Accuracy in percent: the nearest integer to
      `correctChars / totalChars * 100`, and 0 before any character counted. */
  function Accuracy(correctChars: int, totalChars: int): (r: int)
    ensures totalChars == 0 ==> r == 0
    ensures totalChars > 0 ==> totalChars * (2 * r - 1) <= 200 * correctChars < totalChars * (2 * r + 1)
  {
    if totalChars == 0 then 0 else RoundHalfUp(100 * correctChars, totalChars)
  }

  /** Words per minute is never negative within a session. */
  lemma WpmNonNegative(correctChars: nat, timeLeft: int)
    requires timeLeft <= TimeLimit
    ensures Wpm(correctChars, timeLeft) >= 0
  {
  }

  /** With no more correct than counted characters, accuracy is a percentage. */
  lemma AccuracyInRange(correctChars: nat, totalChars: nat)
    requires correctChars <= totalChars
    ensures 0 <= Accuracy(correctChars, totalChars) <= 100
  {
    var r, t := Accuracy(correctChars, totalChars), totalChars;
    if t > 0 && r < 0 {
      assert t * (2 * r + 1) <= t * (-1) by { MulMonotone(t, 2 * r + 1, -1); }
    }
    if t > 0 && r > 100 {
      assert t * 201 <= t * (2 * r - 1) by { MulMonotone(t, 201, 2 * r - 1); }
    }
  }

  lemma MulMonotone(k: int, x: int, y: int)
    requires k > 0 && x <= y
    ensures k * x <= k * y
  {
  }

  /** All counted characters correct means 100 percent. */
  lemma AccuracyPerfect(chars: nat)
    requires chars > 0
    ensures Accuracy(chars, chars) == 100
  {
  }

  /** How a character of the word being typed is shown. */
  datatype Status = Untyped | Correct | Incorrect

  /** The status of character `ch` at position `index` of the current word,
      given the text typed so far for it. */
  function CharStatus(currentInput: string, ch: char, index: nat): (st: Status)
    ensures st == Untyped <==> index >= |currentInput|
    ensures st == Correct <==> index < |currentInput| && currentInput[index] == ch
    ensures st == Incorrect <==> index < |currentInput| && currentInput[index] != ch
  {
    if index >= |currentInput| then Untyped
    else if currentInput[index] == ch then Correct
    else Incorrect
  }

  /** The style class the display gives each status: grey for untyped, green
      for correct, red for incorrect, a different class for each. */
  function StatusClass(st: Status): (c: string)
    ensures c == "text-gray-400" <==> st == Untyped
    ensures c == "text-green-600" <==> st == Correct
    ensures c == "text-red-500" <==> st == Incorrect
  {
    match st
    case Untyped => "text-gray-400"
    case Correct => "text-green-600"
    case Incorrect => "text-red-500"
  }

  /** The characters of `word` shown as correct while `currentInput` is in
      the field are exactly the positions `MatchCount` counts for
      `currentInput` as it stands (untrimmed). */
  lemma CorrectStatusesAreMatches(currentInput: string, word: string)
    ensures (set i: nat | i < |word| && CharStatus(currentInput, word[i], i) == Correct)
            == MatchPositions(currentInput, word)
    ensures |set i: nat | i < |word| && CharStatus(currentInput, word[i], i) == Correct|
            == MatchCount(currentInput, word)
  {
    MatchCountCountsPositions(currentInput, word);
  }
}
