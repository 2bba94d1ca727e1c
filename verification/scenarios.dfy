/**
 Two complete runs of a session, written as client code against the
 contracts of `Typing.Session` alone: the two-word example over the passage
 "the quick fox", and a session left to time out.
 */
module Scenarios {
  import opened Text
  import opened Scoring
  import opened Passage
  import opened Typing

  /** Drawing 0.0 and the corpus order ["the quick", "fox"] gives the passage
      "the", "quick", "fox". */
  lemma ExamplePassage()
    ensures GenerateWords(["the quick", "fox"], ParagraphCount(0.0)) == ["the", "quick", "fox"]
  {
    var ws := ["the", "quick", "fox"];
    assert HasNoSpace(ws[0]) && HasNoSpace(ws[1]) && HasNoSpace(ws[2]);
    SplitJoin(ws);
    assert Selected(["the quick", "fox"], 2) == ["the quick", "fox"];
    assert Join(["the quick", "fox"]) == Join(ws);
  }

  /** The word-scoring examples: an exact match, a one-letter slip, a
      dropped letter and extra letters. */
  lemma ExampleScores()
    ensures MatchCount("the", "the") == 3 && Max(3, 3) == 3
    ensures MatchCount("quixk", "quick") == 4
    ensures MatchCount("quik", "quick") == 3 && Max(4, 5) == 5
    ensures MatchCount("foxes", "fox") == 3 && Max(5, 3) == 5
  {
    ScoreFullIffEqual("the", "the");
    MatchCountFull("quixk", "qui");
    assert "quick"[..4] == "quic" && "quic"[..3] == "qui";
    MatchCountFull("quik", "qui");
    MatchCountFull("foxes", "fox");
  }

  /** The words submitted in the two-word example, once trimmed. */
  lemma ExampleTrims()
    ensures Trim("the ") == "the" && Trim("quik ") == "quik"
  {
    assert SkipLeading("the ", 0) == 0;
    assert SkipTrailing("the ", 0, 4) == 3;
    assert SkipLeading("quik ", 0) == 0;
    assert SkipTrailing("quik ", 0, 5) == 4;
  }

  /** Typing "the " and then "quik " over "the quick fox": the first word is
      correct and earns 3 of 3 characters, the second is wrong and earns 3 of
      5 ("quik" matches "quick" at q, u, i only), so 6 of 8 characters are
      correct and the accuracy shown is 75 percent. */
  method TwoWords() returns (history: seq<TypedWord>, correct: nat, total: nat, accuracy: int)
    ensures history == [TypedWord("the", true), TypedWord("quik", false)]
    ensures correct == 6 && total == 8
    ensures accuracy == 75
  {
    ExamplePassage();
    ExampleTrims();
    ExampleScores();
    var s := new Session(0.0, ["the quick", "fox"]);
    assert s.words == ["the", "quick", "fox"] && s.currentWordIndex == 0;
    s.Input("the ");
    assert s.typedWords == [TypedWord("the", true)];
    assert s.currentWordIndex == 1 && s.correctChars == 3 && s.totalChars == 3;
    s.Input("quik ");
    assert "quik" != "quick" by { assert |"quik"| != |"quick"|; }
    assert s.typedWords == [TypedWord("the", true), TypedWord("quik", false)];
    assert s.correctChars == 6 && s.totalChars == 8;
    history, correct, total := s.typedWords, s.correctChars, s.totalChars;
    accuracy := Accuracy(correct, total);
  }

  /** Once the first key starts it, a session finishes after exactly
      `TimeLimit` ticks, with no time left, and one more tick changes
      nothing. */
  method TimerRunsOut() returns (ticks: nat, timeLeft: int, finished: bool)
    ensures ticks == TimeLimit
    ensures timeLeft == 0 && finished
  {
    var s := new Session(0.0, ["the quick", "fox"]);
    s.Input("t");
    ticks := 0;
    while !s.isFinished
      invariant s.Valid() && s.currentInput == "t"
      invariant s.timeLeft == TimeLimit - ticks
      decreases s.timeLeft
    {
      s.Tick();
      ticks := ticks + 1;
    }
    s.Tick();
    timeLeft, finished := s.timeLeft, s.isFinished;
  }
}
