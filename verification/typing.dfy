/**
 The typing-session state machine: the nine fields of the session, the
 keystroke handler, the once-a-second timer tick and the reset, with the
 invariant every handler keeps.
 */
module Typing {
  import opened Text
  import opened Scoring
  import opened Passage

  /** A submitted word and whether it is exactly its target word. */
  datatype TypedWord = TypedWord(word: string, correct: bool)

  /** Each record of `history` holds a non-empty trimmed word, flagged correct
      exactly when it equals the passage word at the same position. */
  predicate WellScored(history: seq<TypedWord>, words: seq<string>)
    requires |history| <= |words|
  {
    forall i :: 0 <= i < |history| ==>
      history[i].word != [] && IsTrimmed(history[i].word) &&
      history[i].correct == (history[i].word == words[i])
  }

  /** The correct characters the submissions of `history` earn against the
      passage. */
  function CreditedChars(history: seq<TypedWord>, words: seq<string>): nat
    requires |history| <= |words|
  {
    if history == [] then 0
    else
      var k := |history| - 1;
      CreditedChars(history[..k], words) + MatchCount(history[k].word, words[k])
  }

  /** The characters the submissions of `history` are charged: for each word
      the longer of the typed and the target length. */
  function ChargedChars(history: seq<TypedWord>, words: seq<string>): nat
    requires |history| <= |words|
  {
    if history == [] then 0
    else
      var k := |history| - 1;
      ChargedChars(history[..k], words) + Max(|history[k].word|, |words[k]|)
  }

  /** Never more characters are credited than charged. */
  lemma {:induction false} CreditedWithinCharged(history: seq<TypedWord>, words: seq<string>)
    requires |history| <= |words|
    ensures CreditedChars(history, words) <= ChargedChars(history, words)
    decreases |history|
  {
    if history != [] {
      CreditedWithinCharged(history[..|history| - 1], words);
    }
  }

  /** The two counters agree exactly when every submitted word was correct. */
  lemma {:induction false} CountersEqualIffAllCorrect(history: seq<TypedWord>, words: seq<string>)
    requires |history| <= |words|
    requires WellScored(history, words)
    ensures CreditedChars(history, words) == ChargedChars(history, words)
            <==> forall i :: 0 <= i < |history| ==> history[i].correct
    decreases |history|
  {
    if history != [] {
      var k := |history| - 1;
      var earlier := history[..k];
      assert forall i :: 0 <= i < k ==> earlier[i] == history[i];
      CountersEqualIffAllCorrect(earlier, words);
      CreditedWithinCharged(earlier, words);
      ScoreFullIffEqual(history[k].word, words[k]);
    }
  }

  /** Appending one scored submission adds its own scores to the counters. */
  lemma CountersAppend(history: seq<TypedWord>, words: seq<string>, typed: string)
    requires |history| < |words|
    ensures CreditedChars(history + [TypedWord(typed, typed == words[|history|])], words)
            == CreditedChars(history, words) + MatchCount(typed, words[|history|])
    ensures ChargedChars(history + [TypedWord(typed, typed == words[|history|])], words)
            == ChargedChars(history, words) + Max(|typed|, |words[|history|]|)
  {
  }

  /** A new submission of a non-empty trimmed word keeps the history well
      scored. */
  lemma WellScoredAppend(history: seq<TypedWord>, words: seq<string>, typed: string)
    requires |history| < |words| && WellScored(history, words)
    requires typed != [] && IsTrimmed(typed)
    ensures WellScored(history + [TypedWord(typed, typed == words[|history|])], words)
  {
  }

  /** The timer-related part of the session. */
  datatype Clock = Clock(timeLeft: int, isActive: bool, isFinished: bool)

  /** The clock of an idle session, of a running one and of a finished one
      are the only ones that occur: time stays within the limit, the session
      is never both active and finished, it is finished exactly when no time
      is left, and while idle the full time is left. */
  predicate ClockOk(c: Clock)
  {
    && 0 <= c.timeLeft <= TimeLimit
    && !(c.isActive && c.isFinished)
    && (c.isFinished <==> c.timeLeft == 0)
    && (!c.isActive && !c.isFinished ==> c.timeLeft == TimeLimit)
  }

  /** One second of the timer. An interval is scheduled only while the
      session is active with time left; it then counts down, and the tick
      that would reach zero stops the session and finishes it. */
  function TickStep(c: Clock): (d: Clock)
    ensures !(c.isActive && c.timeLeft > 0) ==> d == c
    ensures c.isActive && c.timeLeft > 0 ==>
      && d.timeLeft == c.timeLeft - 1
      && (d.isActive <==> d.timeLeft > 0)
      && (d.isFinished <==> c.isFinished || d.timeLeft == 0)
  {
    if c.isActive && c.timeLeft > 0 then
      if c.timeLeft <= 1 then Clock(0, false, true)
      else c.(timeLeft := c.timeLeft - 1)
    else c
  }

  /** A tick keeps the clock invariant, never adds time, and changes the
      clock only while it runs. */
  lemma TickKeepsClockOk(c: Clock)
    requires ClockOk(c)
    ensures ClockOk(TickStep(c))
    ensures TickStep(c).timeLeft <= c.timeLeft
    ensures TickStep(c) != c <==> c.isActive
    ensures TickStep(c).isFinished <==> c.isFinished || (c.isActive && c.timeLeft == 1)
  {
  }

  /** `n` seconds of the timer. */
  function Ticks(c: Clock, n: nat): Clock
    decreases n
  {
    if n == 0 then c else Ticks(TickStep(c), n - 1)
  }

  /** From `t` seconds left, the first `t - 1` ticks only count down and the
      `t`-th finishes the session. */
  lemma {:induction false} TicksWhileActive(t: int, n: nat)
    requires 0 < t && n <= t
    ensures Ticks(Clock(t, true, false), n)
            == if n < t then Clock(t - n, true, false) else Clock(0, false, true)
    decreases n
  {
    if n > 0 {
      if t == 1 {
        assert Ticks(Clock(0, false, true), 0) == Clock(0, false, true);
      } else {
        TicksWhileActive(t - 1, n - 1);
      }
    }
  }

  /** Ticks do nothing to a session that is not running. */
  lemma {:induction false} TicksWhileStopped(c: Clock, n: nat)
    requires !c.isActive
    ensures Ticks(c, n) == c
    decreases n
  {
    if n > 0 {
      TicksWhileStopped(c, n - 1);
    }
  }

  /** A started session finishes after exactly `TimeLimit` ticks, not earlier,
      and no later tick changes anything. */
  lemma SessionLastsTimeLimit(extra: nat)
    ensures Ticks(Clock(TimeLimit, true, false), TimeLimit) == Clock(0, false, true)
    ensures forall n :: 0 <= n < TimeLimit ==> !Ticks(Clock(TimeLimit, true, false), n).isFinished
    ensures Ticks(Clock(0, false, true), extra) == Clock(0, false, true)
  {
    TicksWhileActive(TimeLimit, TimeLimit);
    forall n | 0 <= n < TimeLimit ensures !Ticks(Clock(TimeLimit, true, false), n).isFinished {
      TicksWhileActive(TimeLimit, n);
    }
    TicksWhileStopped(Clock(0, false, true), extra);
  }

  /** The session invariant over the values of the nine fields: one history
      record per word passed, each scored against its passage word, counters
      equal to what the history earns, a consistent clock, and nothing typed
      while idle. */
  ghost predicate SessionInv(words: seq<string>, index: nat, input: string, history: seq<TypedWord>,
                             clock: Clock, correct: nat, total: nat)
  {
    && index <= |words|
    && |history| == index
    && WellScored(history, words)
    && correct == CreditedChars(history, words)
    && total == ChargedChars(history, words)
    && ClockOk(clock)
    && (!clock.isActive && !clock.isFinished ==> history == [] && input == [])
  }

  /** Submitting a non-empty trimmed word in a running session keeps the
      invariant. */
  lemma SubmitKeepsInv(words: seq<string>, index: nat, input: string, history: seq<TypedWord>,
                       clock: Clock, correct: nat, total: nat, typed: string)
    requires SessionInv(words, index, input, history, clock, correct, total)
    requires index < |words| && clock.isActive
    requires typed != [] && IsTrimmed(typed)
    ensures SessionInv(words, index + 1, "", history + [TypedWord(typed, typed == words[index])], clock,
                       correct + MatchCount(typed, words[index]), total + Max(|typed|, |words[index]|))
  {
    CountersAppend(history, words, typed);
    WellScoredAppend(history, words, typed);
  }

  /** While the field holds trimmed text, the characters shown as correct
      are the characters that typing a space now would credit: that space
      submits the text itself. */
  lemma ShownCorrectIsCredited(currentInput: string, word: string)
    requires IsTrimmed(currentInput)
    ensures EndsWithSpace(currentInput + " ") && Trim(currentInput + " ") == currentInput
    ensures |set i: nat | i < |word| && CharStatus(currentInput, word[i], i) == Correct|
            == MatchCount(Trim(currentInput + " "), word)
  {
    TrimTrailingSpace(currentInput);
    CorrectStatusesAreMatches(currentInput, word);
  }

  /** The typing session. */
  class Session {
    var words: seq<string>
    var currentWordIndex: nat
    var currentInput: string
    var typedWords: seq<TypedWord>
    var timeLeft: int
    var isActive: bool
    var isFinished: bool
    var correctChars: nat
    var totalChars: nat

    function ClockOf(): Clock
      reads this
    {
      Clock(timeLeft, isActive, isFinished)
    }

    ghost predicate Valid()
      reads this
    {
      SessionInv(words, currentWordIndex, currentInput, typedWords, ClockOf(), correctChars, totalChars)
    }

    /** The state of a new or reset session over `passage`. */
    ghost predicate IsFresh(passage: seq<string>)
      reads this
    {
      && words == passage
      && currentWordIndex == 0
      && currentInput == []
      && typedWords == []
      && timeLeft == TimeLimit
      && !isActive && !isFinished
      && correctChars == 0 && totalChars == 0
    }

    /** What a valid session guarantees: the counters are ordered, the scores
        are in range, the time is within the limit and the phase is one of
        idle, active and finished. */
    lemma ValidBounds()
      requires Valid()
      ensures |typedWords| == currentWordIndex <= |words|
      ensures correctChars <= totalChars
      ensures 0 <= timeLeft <= TimeLimit
      ensures !(isActive && isFinished)
      ensures 0 <= Accuracy(correctChars, totalChars) <= 100
      ensures Wpm(correctChars, timeLeft) >= 0
    {
      CreditedWithinCharged(typedWords, words);
      AccuracyInRange(correctChars, totalChars);
      WpmNonNegative(correctChars, timeLeft);
    }

    /** A session over the passage assembled from the first
        `ParagraphCount(random)` paragraphs of `shuffled`. */
    constructor (random: real, shuffled: seq<string>)
      requires 0.0 <= random < 1.0
      ensures Valid()
      ensures IsFresh(GenerateWords(shuffled, ParagraphCount(random)))
    {
      words := GenerateWords(shuffled, ParagraphCount(random));
      currentWordIndex := 0;
      currentInput := "";
      typedWords := [];
      timeLeft := TimeLimit;
      isActive := false;
      isFinished := false;
      correctChars := 0;
      totalChars := 0;
    }

    /** The input field changed to `value`. Non-empty input starts an idle
        session. A value ending in a space submits its trimmed text, if any,
        as the current word and clears the field; any other value is kept as
        the text in progress. */
    method Input(value: string)
      requires Valid()
      requires !isFinished
      requires EndsWithSpace(value) && Trim(value) != [] ==> currentWordIndex < |words|
      modifies this
      ensures Valid()
      ensures words == old(words) && timeLeft == old(timeLeft) && !isFinished
      ensures isActive == (old(isActive) || |value| > 0)
      ensures !EndsWithSpace(value) ==> currentInput == value
      ensures EndsWithSpace(value) ==> currentInput == []
      ensures !EndsWithSpace(value) || Trim(value) == [] ==>
        && typedWords == old(typedWords) && currentWordIndex == old(currentWordIndex)
        && correctChars == old(correctChars) && totalChars == old(totalChars)
      ensures EndsWithSpace(value) && Trim(value) != [] ==>
        var typed, target := Trim(value), old(words[currentWordIndex]);
        && typedWords == old(typedWords) + [TypedWord(typed, typed == target)]
        && currentWordIndex == old(currentWordIndex) + 1
        && correctChars == old(correctChars) + MatchCount(typed, target)
        && totalChars == old(totalChars) + Max(|typed|, |target|)
    {
      if !isActive && !isFinished && |value| > 0 {
        isActive := true;
      }
      if EndsWithSpace(value) {
        var typedWord := Trim(value);
        if typedWord != [] {
          Submit(typedWord);
        }
        currentInput := "";
      } else {
        currentInput := value;
      }
    }

    /** Scores `typedWord` against the current passage word and moves on to
        the next word: the correct characters and the charged length are added
        to the counters and a record of the word is appended to the history. */
    method Submit(typedWord: string)
      requires Valid() && isActive
      requires typedWord != [] && IsTrimmed(typedWord)
      requires currentWordIndex < |words|
      modifies this
      ensures Valid()
      ensures words == old(words) && currentInput == old(currentInput)
      ensures ClockOf() == old(ClockOf())
      ensures var target := old(words[currentWordIndex]);
        && typedWords == old(typedWords) + [TypedWord(typedWord, typedWord == target)]
        && currentWordIndex == old(currentWordIndex) + 1
        && correctChars == old(correctChars) + MatchCount(typedWord, target)
        && totalChars == old(totalChars) + Max(|typedWord|, |target|)
    {
      var currentWord := words[currentWordIndex];
      var wordCorrectChars := MatchCount(typedWord, currentWord);
      SubmitKeepsInv(words, currentWordIndex, currentInput, typedWords, ClockOf(),
                     correctChars, totalChars, typedWord);
      correctChars := correctChars + wordCorrectChars;
      totalChars := totalChars + Max(|typedWord|, |currentWord|);
      typedWords := typedWords + [TypedWord(typedWord, typedWord == currentWord)];
      currentWordIndex := currentWordIndex + 1;
    }

    /** One second elapsed: the timer step, applied to the session. */
    method Tick()
      requires Valid()
      modifies this
      ensures Valid()
      ensures ClockOf() == TickStep(old(ClockOf()))
      ensures words == old(words) && currentWordIndex == old(currentWordIndex)
      ensures currentInput == old(currentInput) && typedWords == old(typedWords)
      ensures correctChars == old(correctChars) && totalChars == old(totalChars)
    {
      if isActive && timeLeft > 0 {
        if timeLeft <= 1 {
          isActive := false;
          isFinished := true;
          timeLeft := 0;
        } else {
          timeLeft := timeLeft - 1;
        }
      }
    }

    /** Start over with a new passage. Nothing of the old state survives, so
        resetting twice leaves the same state as resetting once with the
        second passage. */
    method Reset(random: real, shuffled: seq<string>)
      requires 0.0 <= random < 1.0
      modifies this
      ensures Valid()
      ensures IsFresh(GenerateWords(shuffled, ParagraphCount(random)))
    {
      words := GenerateWords(shuffled, ParagraphCount(random));
      currentWordIndex := 0;
      currentInput := "";
      typedWords := [];
      timeLeft := TimeLimit;
      isActive := false;
      isFinished := false;
      correctChars := 0;
      totalChars := 0;
    }
  }
}
