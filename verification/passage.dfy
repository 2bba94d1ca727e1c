/**
 Assembling the passage of a session. The source draws a paragraph count
 and shuffles its corpus with `Math.random`; here the random number and the
 shuffled corpus are parameters, so only what is done with them is modelled:
 the first paragraphs are joined with single spaces and the result is split
 on single spaces.
 */
module Passage {
  import opened Text

  /** `Math.floor(random * 2) + 2` for a `random` drawn from [0, 1). */
  function ParagraphCount(random: real): (n: nat)
    requires 0.0 <= random < 1.0
    ensures n == 2 || n == 3
    ensures n == 2 <==> random < 0.5
  {
    (random * 2.0).Floor + 2
  }

  /** `shuffled.slice(0, count)`. */
  function Selected(shuffled: seq<string>, count: nat): (ps: seq<string>)
    ensures |ps| == if count <= |shuffled| then count else |shuffled|
    ensures ps == shuffled[..|ps|]
  {
    if count <= |shuffled| then shuffled[..count] else shuffled
  }

  /** The words of the session: `selected.join(" ").split(" ")`. They join
      back to the selected text, contain no space, and are one more than the
      spaces of that text. */
  function GenerateWords(shuffled: seq<string>, count: nat): (ws: seq<string>)
    ensures Join(ws) == Join(Selected(shuffled, count))
    ensures forall k :: 0 <= k < |ws| ==> HasNoSpace(ws[k])
    ensures |ws| == SpaceCount(Join(Selected(shuffled, count))) + 1
  {
    var text := Join(Selected(shuffled, count));
    JoinSplit(text);
    SplitPieces(text);
    Split(text)
  }

  /** The pieces of every paragraph in turn, as split on single spaces. */
  function SplitEach(ps: seq<string>): seq<string>
  {
    if ps == [] then [] else Split(ps[0]) + SplitEach(ps[1..])
  }

  /** Splitting the join is splitting each paragraph on its own: no word is
      fused across two paragraphs and none is lost. */
  lemma {:induction false} SplitJoinIsSplitEach(ps: seq<string>)
    requires |ps| >= 1
    ensures Split(Join(ps)) == SplitEach(ps)
    decreases |ps|
  {
    if |ps| == 1 {
      assert SplitEach(ps) == Split(ps[0]) + SplitEach([]);
    } else {
      SplitJoinIsSplitEach(ps[1..]);
      SplitAppend(ps[0], Join(ps[1..]));
    }
  }

  /** Each paragraph gives at least one word. */
  lemma {:induction false} SplitEachLength(ps: seq<string>)
    ensures |SplitEach(ps)| >= |ps|
    ensures forall k :: 0 <= k < |SplitEach(ps)| ==> HasNoSpace(SplitEach(ps)[k])
    decreases |ps|
  {
    if ps != [] {
      SplitEachLength(ps[1..]);
      SplitPieces(ps[0]);
      var head, tail := Split(ps[0]), SplitEach(ps[1..]);
      forall k | 0 <= k < |head + tail| ensures HasNoSpace((head + tail)[k]) {
        if k >= |head| { assert (head + tail)[k] == tail[k - |head|]; }
      }
    }
  }

  /** A generated passage is never empty, has at least one word per selected
      paragraph, holds no word containing a space, and joins back to the
      selected paragraphs joined with spaces. */
  lemma GeneratedWordsShape(shuffled: seq<string>, count: nat)
    ensures |GenerateWords(shuffled, count)| >= 1
    ensures |GenerateWords(shuffled, count)| >= |Selected(shuffled, count)|
    ensures forall k :: 0 <= k < |GenerateWords(shuffled, count)| ==> HasNoSpace(GenerateWords(shuffled, count)[k])
    ensures Join(GenerateWords(shuffled, count)) == Join(Selected(shuffled, count))
  {
    var ps := Selected(shuffled, count);
    JoinSplit(Join(ps));
    SplitPieces(Join(ps));
    if ps != [] {
      SplitJoinIsSplitEach(ps);
      SplitEachLength(ps);
    }
  }
}
