# Typing test session, modelled in Dafny

This project models the typing-session state machine of the `TypingTest` React
component in a typing-speed trainer. The trainer shows a passage made of two or
three paragraphs. It accepts the passage word by word: the word typed so far sits
in an input field, and a trailing space submits it. A 30-second countdown starts
on the first keystroke, and the trainer reports words per minute and accuracy.

The model has five modules:

- `Text`: JavaScript's `trim`, `split(" ")` and `join(" ")` on strings, with their
  defining properties. `split` and `join` are inverse to each other. `trim` returns
  the slice of its input left after the surrounding whitespace is removed.
- `Scoring`: the pure pieces of the component.
  - How a submitted word is scored against its target (`MatchCount`).
  - Words per minute and accuracy, each with its divide-by-zero guard.
  - The per-character display status (`CharStatus`).
- `Passage`: how the passage is built. The random paragraph count and the shuffled
  corpus are inputs. The chosen paragraphs are joined with spaces, and the result
  is split on spaces.
- `Typing`: the session itself.
  - The class `Session` holds the component's nine state fields.
  - Its methods are `Input` (the input field's change handler), `Tick` (one firing
    of the one-second interval) and `Reset` (the restart button).
  - The invariant `Valid()` holds after every handler. One history record exists
    per word passed, and each is scored against its passage word. The two counters
    equal what the history earns. The clock is consistent: the time stays within
    `0..30`, the session is never both active and finished, and it is finished
    exactly when no time is left.
  - The pure clock step `TickStep` has lemmas about runs of ticks.
  - The datatype `TypedWord` is the `TypedWord` interface of the source (lines 37-40): a submitted word and whether it equals its target.
- `Scenarios`: two client runs proved from the contracts alone. One is the
  two-word example "the " then "quik " over "the quick fox", which ends at 75%
  accuracy. The other is a session left to time out after exactly 30 ticks.

## Model

| member | source | states |
|---|---|---|
| `Text.IsWhitespace` | src/components/TypingTest.tsx:201 | the characters `trim` removes include the space and exclude every ASCII letter and digit |
| `Text.Trim` | src/components/TypingTest.tsx:201 | the result has no whitespace at either end and is the slice of the input that remains after its leading and trailing whitespace is removed |
| `Text.TrimIdempotent` | src/components/TypingTest.tsx:201 | trimming an already trimmed string changes nothing |
| `Text.TrimEmptyIff` | src/components/TypingTest.tsx:201-204 | the trimmed text is empty exactly when every character is whitespace, which is when a space-terminated input submits nothing |
| `Text.EndsWithSpace` | src/components/TypingTest.tsx:200 | `value.endsWith(" ")` holds exactly when the value is some text followed by one space, and such a value is never already trimmed |
| `Text.TrimTrailingSpace` | src/components/TypingTest.tsx:200-201 | trimming a trimmed text followed by one space gives the text back, so that space submits exactly the text in the field |
| `Text.Split` | src/components/TypingTest.tsx:156 | `split(" ")` always yields at least one piece |
| `Text.Join` | src/components/TypingTest.tsx:156 | `join(" ")` of no words is the empty string, and otherwise begins with the first word |
| `Text.JoinSpaceCount` | src/components/TypingTest.tsx:156 | joining space-free words puts exactly one space between neighbours and no other space |
| `Text.SplitPieces` | src/components/TypingTest.tsx:156 | no piece of `split(" ")` contains a space, and there is exactly one piece more than there are spaces |
| `Text.JoinSplit` | src/components/TypingTest.tsx:156 | `split(" ")` followed by `join(" ")` gives back the original string |
| `Text.SplitAppend` | src/components/TypingTest.tsx:156 | splitting `a + " " + b` is splitting `a` and `b` separately and concatenating |
| `Text.SplitJoin` | src/components/TypingTest.tsx:156 | `join(" ")` followed by `split(" ")` recovers any non-empty list of space-free words |
| `Passage.ParagraphCount` | src/components/TypingTest.tsx:153 | `Math.floor(random * 2) + 2` is 2 or 3, and it is 2 exactly when the random number is below 0.5 |
| `Passage.Selected` | src/components/TypingTest.tsx:155 | `slice(0, count)` is the prefix of length `min(count, length)` |
| `Passage.GenerateWords` | src/components/TypingTest.tsx:152-157 | the generated words join back with single spaces to the selected paragraphs joined with single spaces, contain no space, and number one more than the spaces of that joined text |
| `Passage.SplitJoinIsSplitEach` | src/components/TypingTest.tsx:156 | splitting the joined paragraphs equals splitting each paragraph and concatenating, so no word is fused across paragraphs and none is lost |
| `Passage.SplitEachLength` | src/components/TypingTest.tsx:156 | each paragraph contributes at least one word, and no word contains a space |
| `Passage.GeneratedWordsShape` | src/components/TypingTest.tsx:152-157 | a generated passage is non-empty, has at least one word per selected paragraph, has no word containing a space, and joins back to the joined paragraphs |
| `Scoring.Max` | src/components/TypingTest.tsx:211 | `Math.max` is an upper bound equal to one of its arguments |
| `Scoring.MatchCount` | src/components/TypingTest.tsx:205-207 | the number of matched characters is at most the length of the target and at most the length of the typed word |
| `Scoring.MatchCountCountsPositions` | src/components/TypingTest.tsx:205-207 | the count is the number of positions `i < length(target)` where the typed word has the target's character at `i`, positions past the typed word never matching |
| `Scoring.MatchCountFull` | src/components/TypingTest.tsx:205-207 | every target character matches exactly when the target is a prefix of the typed word |
| `Scoring.ScoreFullIffEqual` | src/components/TypingTest.tsx:205-216 | a word earns as many correct characters as it is charged (the longer length) exactly when it equals its target, that is, exactly when it is recorded as correct |
| `Scoring.RoundHalfUp` | src/components/TypingTest.tsx:182-191 | `Math.round(a / b)` on exact rationals gives the integer `r` with `r - 1/2 <= a/b < r + 1/2` |
| `Scoring.Wpm` | src/components/TypingTest.tsx:182-186 | 0 before any time has elapsed; otherwise the nearest integer to `correctChars / 5 / elapsed * 60`, halves rounded up |
| `Scoring.Accuracy` | src/components/TypingTest.tsx:188-191 | 0 while no character has been counted; otherwise the nearest integer to `correctChars / totalChars * 100`, halves rounded up |
| `Scoring.WpmNonNegative` | src/components/TypingTest.tsx:182-186 | words per minute is never negative while the time left is within the limit |
| `Scoring.AccuracyInRange` | src/components/TypingTest.tsx:188-191 | accuracy lies in `0..100` whenever the correct characters do not exceed the counted ones |
| `Scoring.AccuracyPerfect` | src/components/TypingTest.tsx:188-191 | with every counted character correct, accuracy is exactly 100 |
| `Scoring.CharStatus` | src/components/TypingTest.tsx:238-242 | untyped exactly when the index is at or past the end of the input, correct exactly when the input has that character at that index, incorrect exactly when it has another one |
| `Scoring.StatusClass` | src/components/TypingTest.tsx:239-241 | untyped characters are grey (`text-gray-400`), correct ones green (`text-green-600`) and incorrect ones red (`text-red-500`), each status having its own class |
| `Scoring.CorrectStatusesAreMatches` | src/components/TypingTest.tsx:238-242 | the positions shown as correct for the current word are exactly the positions `MatchCount` counts for the input as it stands, untrimmed, and their number is that count |
| `Typing.ShownCorrectIsCredited` | src/components/TypingTest.tsx:200-207 | while the field holds trimmed text, the number of characters shown as correct is the number a space typed now would credit, since that space submits the text itself |
| `Typing.CreditedWithinCharged` | src/components/TypingTest.tsx:209-212 | over any history, the credited characters never exceed the charged ones, which is why `correctChars <= totalChars` holds |
| `Typing.CountersEqualIffAllCorrect` | src/components/TypingTest.tsx:205-217 | the two counters are equal exactly when every submitted word was recorded as correct |
| `Typing.CountersAppend` | src/components/TypingTest.tsx:209-217 | appending one scored record adds that word's match count to the credited total and its longer length to the charged total |
| `Typing.WellScoredAppend` | src/components/TypingTest.tsx:214-217 | appending `{word, correct: word == target}` for a non-empty trimmed word keeps each record flagged correct exactly when it equals its passage word |
| `Typing.SubmitKeepsInv` | src/components/TypingTest.tsx:204-220 | a submission in a running session keeps the whole session invariant: index and history length move together, and the counters stay equal to what the history earns |
| `Typing.TickStep` | src/components/TypingTest.tsx:167-174 | a tick does nothing unless the session is active with time left; then it takes exactly one second off, the session stays active exactly while time remains, and it is finished afterwards exactly when it already was or the time has reached 0 |
| `Typing.TickKeepsClockOk` | src/components/TypingTest.tsx:166-174 | a tick keeps the clock consistent and never adds time; it changes the clock only while the session is active, and it finishes the session only from 1 second left |
| `Typing.TicksWhileActive` | src/components/TypingTest.tsx:165-175 | from `t` seconds left, the first `t - 1` ticks only count down, and the `t`-th sets the time to 0, stops the session and finishes it |
| `Typing.TicksWhileStopped` | src/components/TypingTest.tsx:163-180 | ticks change nothing while the session is not active, since no interval is scheduled then |
| `Typing.SessionLastsTimeLimit` | src/components/TypingTest.tsx:14 | a started session with the 30-second limit finishes after exactly 30 ticks and not earlier, and later ticks change nothing |
| `Typing.Session.ValidBounds` | src/components/TypingTest.tsx:142-150 | in every valid state, the history length is the word index and within the passage; correct characters do not exceed total characters; the time is in `0..30`; the session is never both active and finished; accuracy is in `0..100`; and words per minute is non-negative |
| `Typing.Session.constructor` | src/components/TypingTest.tsx:142-161 | a new session holds the generated passage, index 0, empty input and history, the full time, neither active nor finished, and zero counters |
| `Typing.Session.Input` | src/components/TypingTest.tsx:193-224 | activates only on non-empty input; an input ending in a space clears the field and, if its trimmed text is non-empty, appends exactly one record `{word, correct: word == target}`, advances the index by one and adds the match count and the longer length to the counters; any other input only replaces the text in progress; the passage, the time and the finished flag are untouched, and the invariant is kept |
| `Typing.Session.Submit` | src/components/TypingTest.tsx:204-219 | scoring a non-empty trimmed word appends its record, advances the index by one and adds its match count and longer length to the counters, changing nothing else |
| `Typing.Session.Tick` | src/components/TypingTest.tsx:163-180 | one second applies `TickStep` to the time and the two phase flags, leaves the other six fields unchanged and keeps the invariant |
| `Typing.Session.Reset` | src/components/TypingTest.tsx:226-236 | every field is set to its initial value over a newly generated passage, whatever the previous state, so resetting twice gives the state of one reset with the second passage |
| `Scenarios.ExamplePassage` | src/components/TypingTest.tsx:156 | the paragraphs "the quick" and "fox" give the passage "the", "quick", "fox" |
| `Scenarios.ExampleScores` | src/components/TypingTest.tsx:205-212 | "the" against "the" matches 3 of 3; "quixk" against "quick" matches 4; "quik" against "quick" matches 3 and is charged 5; "foxes" against "fox" matches 3 and is charged 5 |
| `Scenarios.ExampleTrims` | src/components/TypingTest.tsx:201 | the inputs "the " and "quik " submit "the" and "quik" |
| `Scenarios.TwoWords` | src/components/TypingTest.tsx:193-224 | typing "the " and "quik " over "the quick fox" records one correct and one incorrect word and counts 6 correct of 8 characters, so accuracy is 75 |
| `Scenarios.TimerRunsOut` | src/components/TypingTest.tsx:163-180 | after the first keystroke, the session finishes after exactly 30 ticks with no time left, and one more tick leaves it finished |

## Behaviour kept from the code

- The passage is built with `split(" ")`, which splits on single spaces and keeps empty tokens. Two adjacent spaces, or a space at either end of a paragraph, would yield an empty word. The model does the same. It does not split on runs of whitespace.
- The source has no guard against submitting a word after the passage is used up. There, `words[currentWordIndex]` is `undefined` and the handler throws. The model makes "index within the passage" a precondition of `Input` whenever the trimmed input is non-empty. It does not treat that case as a no-op.
- The input field is rendered only while the session is not finished (line 286). `Input` therefore requires `!isFinished`.
- The interval exists only while `isActive && timeLeft > 0` (line 165). `Tick` applies the countdown under exactly that condition and does nothing otherwise.

## Left out

- The presentation components `StatsCard`, `WordDisplay`, `Results` and `Instructions`, and the returned markup (lines 23-139, 244-314). They only display state, for instance the word colouring from `currentWordIndex` and the `correct` flags, the red timer at 5 seconds or less, and the placeholder, button label and instructions chosen by the phase flags. The one display helper the component defines, `getCharStatus`, is modelled together with its class names (`Scoring.StatusClass`).
- Scheduling with `setInterval`/`clearInterval` and the `useEffect` lifecycle (lines 159-180). These are wall-clock timing and callback cancellation. One firing of the interval is the method `Tick`.
- `Math.random` and the shuffle that sorts with a random comparator (lines 153-155). The random number behind the paragraph count and the shuffled corpus are parameters of the constructor and of `Reset`.
- The literal corpus `PARAGRAPHS` (lines 3-12). Any sequence of strings may be used in its place.
- The state before the mount effect first fills `words`, when the passage is briefly empty (lines 142, 159-161). The constructor combines the initial state with that first fill.
- Scoring.Wpm: uses exact rational arithmetic with rounding half up, where the source rounds a floating-point value. The two could differ where the float lands just beside an exact half.
- Scoring.Accuracy: the same exact-arithmetic caveat as `Scoring.Wpm`.
- React's asynchronous, batched state updates and stale closures. Each handler applies all its updates atomically and in order.
- Text encoding: JavaScript strings index UTF-16 code units, and a Dafny `char` is a Unicode scalar value. The model agrees with the source only for text without characters outside the Basic Multilingual Plane.
