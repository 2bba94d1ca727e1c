/**
 The string operations the typing session relies on, with JavaScript's
 semantics: `String.prototype.trim`, `split(" ")` and `join(" ")`.
 Strings are sequences of characters.
 */
module Text {

  /** The characters JavaScript's `trim` removes: the ECMAScript WhiteSpace
      and LineTerminator code points. */
  predicate IsWhitespace(c: char): (b: bool)
    ensures c == ' ' ==> b
    ensures ('0' <= c <= '9') || ('a' <= c <= 'z') || ('A' <= c <= 'Z') ==> !b
  {
    || c == '\t' || c == '\n' || c == '\U{000B}' || c == '\U{000C}' || c == '\r'
    || c == ' ' || c == '\U{00A0}' || c == '\U{1680}'
    || ('\U{2000}' <= c <= '\U{200A}')
    || c == '\U{2028}' || c == '\U{2029}' || c == '\U{202F}' || c == '\U{205F}'
    || c == '\U{3000}' || c == '\U{FEFF}'
  }

  /** `s.endsWith(" ")`: the word-boundary signal of the input field. */
  predicate EndsWithSpace(s: string): (b: bool)
    ensures b <==> |s| > 0 && s == s[..|s| - 1] + " "
    ensures b ==> !IsTrimmed(s)
  {
    |s| > 0 && s[|s| - 1] == ' '
  }

  /** Neither the first nor the last character is whitespace. */
  predicate IsTrimmed(s: string)
  {
    s == [] || (!IsWhitespace(s[0]) && !IsWhitespace(s[|s| - 1]))
  }

  /** The index of the first non-whitespace character of `s` at or after `i`,
      or `|s|` if there is none. */
  function SkipLeading(s: string, i: nat): (k: nat)
    requires i <= |s|
    ensures i <= k <= |s|
    ensures forall j :: i <= j < k ==> IsWhitespace(s[j])
    ensures k == |s| || !IsWhitespace(s[k])
    decreases |s| - i
  {
    if i < |s| && IsWhitespace(s[i]) then SkipLeading(s, i + 1) else i
  }

  /** The end of the last non-whitespace character of `s` before `j` and not
      before `lo`, or `lo` if there is none. */
  function SkipTrailing(s: string, lo: nat, j: nat): (k: nat)
    requires lo <= j <= |s|
    ensures lo <= k <= j
    ensures forall m :: k <= m < j ==> IsWhitespace(s[m])
    ensures k == lo || !IsWhitespace(s[k - 1])
    decreases j
  {
    if j > lo && IsWhitespace(s[j - 1]) then SkipTrailing(s, lo, j - 1) else j
  }

  /** `s` is `r` with only whitespace before (`lo` characters) and after. */
  predicate SliceAmidWhitespace(s: string, r: string, lo: int)
  {
    && 0 <= lo <= |s| - |r| && s[lo..lo + |r|] == r
    && (forall i :: 0 <= i < lo ==> IsWhitespace(s[i]))
    && (forall i :: lo + |r| <= i < |s| ==> IsWhitespace(s[i]))
  }

  /** `s.trim()`: `s` with whitespace removed at both ends. */
  function Trim(s: string): (r: string)
    ensures IsTrimmed(r)
    ensures SliceAmidWhitespace(s, r, SkipLeading(s, 0))
  {
    var lo := SkipLeading(s, 0);
    s[lo..SkipTrailing(s, lo, |s|)]
  }

  /** A trimmed string is left alone by `trim`. */
  lemma TrimIdempotent(s: string)
    requires IsTrimmed(s)
    ensures Trim(s) == s
  {
  }

  /** `trim` yields the empty string exactly when every character is
      whitespace. */
  lemma TrimEmptyIff(s: string)
    ensures Trim(s) == [] <==> forall i :: 0 <= i < |s| ==> IsWhitespace(s[i])
  {
  }

  /** `s.split(" ")`: the maximal runs of non-space characters between the
      spaces of `s`, empty runs included (JavaScript keeps them). */
  function Split(s: string): (r: seq<string>)
    ensures |r| >= 1
    decreases |s|
  {
    if s == [] then [""]
    else
      var rest := Split(s[1..]);
      if s[0] == ' ' then [""] + rest
      else [[s[0]] + rest[0]] + rest[1..]
  }

  /** `ws.join(" ")`: the words in order, the first one leading. */
  function Join(ws: seq<string>): (r: string)
    ensures ws == [] ==> r == ""
    ensures |ws| >= 1 ==> |ws[0]| <= |r| && r[..|ws[0]|] == ws[0]
    decreases |ws|
  {
    if ws == [] then ""
    else if |ws| == 1 then ws[0]
    else ws[0] + " " + Join(ws[1..])
  }

  predicate HasNoSpace(w: string)
  {
    forall i :: 0 <= i < |w| ==> w[i] != ' '
  }

  /** No piece produced by `split(" ")` contains a space, and there is one
      piece more than there are spaces. */
  lemma {:induction false} SplitPieces(s: string)
    ensures forall k :: 0 <= k < |Split(s)| ==> HasNoSpace(Split(s)[k])
    ensures |Split(s)| == SpaceCount(s) + 1
    decreases |s|
  {
    if s != [] {
      SplitPieces(s[1..]);
      var rest := Split(s[1..]);
      if s[0] != ' ' {
        var r := Split(s);
        assert r[0] == [s[0]] + rest[0];
        forall k | 0 <= k < |r| ensures HasNoSpace(r[k]) {
          if k > 0 { assert r[k] == rest[k]; }
        }
      }
    }
  }

  /** The number of spaces in `s`. */
  function SpaceCount(s: string): nat
  {
    if s == [] then 0 else (if s[0] == ' ' then 1 else 0) + SpaceCount(s[1..])
  }

  /** Spaces of a concatenation are the spaces of its parts. */
  lemma {:induction false} SpaceCountAppend(a: string, b: string)
    ensures SpaceCount(a + b) == SpaceCount(a) + SpaceCount(b)
    decreases |a|
  {
    if a != [] {
      var head := if a[0] == ' ' then 1 else 0;
      assert (a + b)[0] == a[0] && (a + b)[1..] == a[1..] + b;
      assert SpaceCount(a + b) == head + SpaceCount(a[1..] + b);
      SpaceCountAppend(a[1..], b);
    } else {
      assert a + b == b;
    }
  }

  /** A string is space-free exactly when it counts no space. */
  lemma {:induction false} NoSpaceIff(w: string)
    ensures HasNoSpace(w) <==> SpaceCount(w) == 0
    decreases |w|
  {
    if w != [] {
      NoSpaceIff(w[1..]);
      assert forall i :: 1 <= i < |w| ==> w[1..][i - 1] == w[i];
    }
  }

  /** Typing a space after trimmed text and trimming again gives the text
      back. */
  lemma TrimTrailingSpace(s: string)
    requires IsTrimmed(s)
    ensures Trim(s + " ") == s
  {
    var t := s + " ";
    var lo := SkipLeading(t, 0);
    if s != [] {
      assert t[0] == s[0];
      assert lo == 0;
      assert t[|s| - 1] == s[|s| - 1];
      assert SkipTrailing(t, 0, |t| - 1) == |s|;
      assert t[..|s|] == s;
    }
  }

  /** Joining the pieces of a split gives back the original string. */
  lemma {:induction false} JoinSplit(s: string)
    ensures Join(Split(s)) == s
    decreases |s|
  {
    if s != [] {
      JoinSplit(s[1..]);
      var rest := Split(s[1..]);
      if s[0] == ' ' {
        assert ([""] + rest)[1..] == rest;
      } else {
        var r := Split(s);
        if |rest| == 1 {
          assert r == [[s[0]] + rest[0]];
        } else {
          assert r[1..] == rest[1..];
          assert Join(rest) == rest[0] + " " + Join(rest[1..]);
        }
      }
    }
  }

  /** For space-free words, `join(" ")` puts exactly one space between
      neighbours and no other. */
  lemma {:induction false} JoinSpaceCount(ws: seq<string>)
    requires |ws| >= 1
    requires forall k :: 0 <= k < |ws| ==> HasNoSpace(ws[k])
    ensures SpaceCount(Join(ws)) == |ws| - 1
    decreases |ws|
  {
    NoSpaceIff(ws[0]);
    if |ws| > 1 {
      var rest := ws[1..];
      assert forall k :: 0 <= k < |rest| ==> rest[k] == ws[k + 1];
      JoinSpaceCount(rest);
      SpaceCountAppend(ws[0], " ");
      SpaceCountAppend(ws[0] + " ", Join(rest));
    }
  }

  /** Splitting at a space splits the two sides independently. */
  lemma {:induction false} SplitAppend(a: string, b: string)
    ensures Split(a + " " + b) == Split(a) + Split(b)
    decreases |a|
  {
    if a == [] {
      assert a + " " + b == [' '] + b;
      assert (a + " " + b)[1..] == b;
    } else {
      assert (a + " " + b)[1..] == a[1..] + " " + b;
      SplitAppend(a[1..], b);
    }
  }

  /** A word without spaces splits into itself. */
  lemma {:induction false} SplitWord(w: string)
    requires HasNoSpace(w)
    ensures Split(w) == [w]
    decreases |w|
  {
    if w != [] {
      SplitWord(w[1..]);
      assert [w[0]] + w[1..] == w;
    }
  }

  /** Splitting a join of space-free words recovers the words. */
  lemma {:induction false} SplitJoin(ws: seq<string>)
    requires |ws| >= 1
    requires forall k :: 0 <= k < |ws| ==> HasNoSpace(ws[k])
    ensures Split(Join(ws)) == ws
    decreases |ws|
  {
    SplitWord(ws[0]);
    if |ws| > 1 {
      SplitJoin(ws[1..]);
      SplitAppend(ws[0], Join(ws[1..]));
      assert [ws[0]] + ws[1..] == ws;
    }
  }
}
