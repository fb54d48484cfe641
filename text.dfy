/** The string operations behind the naive summarizer of app.py: Python's
    `str.strip()`, `str.split(sep)`, slicing `[:2]` and `glue.join(pieces)`,
    composed as `summarize_text`. Strings are sequences of Unicode scalar values. */
module Text {
  import opened Ints

  /** Python's `str.isspace()` for one character: exactly the characters that
      `str.strip()` without an argument removes. */
  predicate IsSpace(c: char) {
    || ('\t' <= c <= '\r')
    || ('\U{1C}' <= c <= '\U{1F}')
    || c == ' '
    || c == '\U{85}'
    || c == '\U{A0}'
    || c == '\U{1680}'
    || ('\U{2000}' <= c <= '\U{200A}')
    || c == '\U{2028}'
    || c == '\U{2029}'
    || c == '\U{202F}'
    || c == '\U{205F}'
    || c == '\U{3000}'
  }

  predicate AllSpace(s: string) {
    forall i :: 0 <= i < |s| ==> IsSpace(s[i])
  }

  /** Neither end of `s` is whitespace. */
  predicate Trimmed(s: string) {
    s == [] || (!IsSpace(s[0]) && !IsSpace(s[|s| - 1]))
  }

  /** The first position at or after `i` that does not hold whitespace (or `|s|`). */
  function SkipSpace(s: string, i: nat): (j: nat)
    requires i <= |s|
    ensures i <= j <= |s|
    ensures forall k :: i <= k < j ==> IsSpace(s[k])
    ensures j < |s| ==> !IsSpace(s[j])
    decreases |s| - i
  {
    if i < |s| && IsSpace(s[i]) then SkipSpace(s, i + 1) else i
  }

  /** The end of `s[lo..hi]` once its trailing whitespace is cut off. */
  function SkipSpaceBack(s: string, lo: nat, hi: nat): (j: nat)
    requires lo <= hi <= |s|
    ensures lo <= j <= hi
    ensures forall k :: j <= k < hi ==> IsSpace(s[k])
    ensures j > lo ==> !IsSpace(s[j - 1])
  {
    if hi > lo && IsSpace(s[hi - 1]) then SkipSpaceBack(s, lo, hi - 1) else hi
  }

  /** `s.strip()`: what is left of `s` once the whitespace at both ends is cut
      off. The result is the slice of `s` starting at its first non-space
      character; everything cut off is whitespace; the result is trimmed. */
  function Strip(s: string): (r: string)
    ensures Trimmed(r)
    ensures var lo := SkipSpace(s, 0);
      && lo + |r| <= |s|
      && r == s[lo..lo + |r|]
      && (forall k :: lo + |r| <= k < |s| ==> IsSpace(s[k]))
  {
    var lo := SkipSpace(s, 0);
    s[lo..SkipSpaceBack(s, lo, |s|)]
  }

  /** A string strips to nothing exactly when it is all whitespace: the test
      `if t.strip():` keeps an entry exactly when it has a non-space character. */
  lemma StripEmptyIffBlank(s: string)
    ensures Strip(s) == "" <==> AllSpace(s)
  {
    var lo := SkipSpace(s, 0);
    if Strip(s) == "" {
      assert forall k :: 0 <= k < |s| ==> IsSpace(s[k]) by {
        forall k | 0 <= k < |s| ensures IsSpace(s[k]) {
          if k >= lo { assert lo + |Strip(s)| <= k; }
        }
      }
    }
  }

  /** Stripping an already trimmed string changes nothing, so `strip` is idempotent. */
  lemma StripTrimmed(s: string)
    requires Trimmed(s)
    ensures Strip(s) == s
  {
    if s != [] {
      assert SkipSpace(s, 0) == 0;
      assert SkipSpaceBack(s, 0, |s|) == |s|;
    }
  }

  lemma {:induction false} StripIdempotent(s: string)
    ensures Strip(Strip(s)) == Strip(s)
  {
    StripTrimmed(Strip(s));
  }

  /** Stripping never removes a non-space character, so it keeps every count of one. */
  lemma StripKeepsCount(s: string, c: char)
    requires !IsSpace(c)
    ensures multiset(Strip(s))[c] == multiset(s)[c]
  {
    var lo := SkipSpace(s, 0);
    var r := Strip(s);
    var front, back := s[..lo], s[lo + |r|..];
    assert s == front + r + back;
    SpaceHasNo(front, c);
    SpaceHasNo(back, c);
    assert multiset(s) == multiset(front) + multiset(r) + multiset(back);
  }

  lemma SpaceHasNo(t: string, c: char)
    requires AllSpace(t) && !IsSpace(c)
    ensures multiset(t)[c] == 0
  {
    assert c !in t;
  }

  /** `s.index(c)`: the position of the first occurrence of `c`. */
  function IndexOf(s: string, c: char): (i: nat)
    requires c in s
    ensures i < |s| && s[i] == c && c !in s[..i]
  {
    if s[0] == c then 0 else 1 + IndexOf(s[1..], c)
  }

  /** `s.split(sep)` for a one-character separator: the pieces between the
      occurrences of `sep`, including empty ones; never an empty list. */
  function Split(s: string, sep: char): (pieces: seq<string>)
    ensures |pieces| >= 1
    ensures forall k :: 0 <= k < |pieces| ==> sep !in pieces[k]
    decreases |s|
  {
    if sep !in s then [s]
    else
      var i := IndexOf(s, sep);
      [s[..i]] + Split(s[i + 1..], sep)
  }

  /** `glue.join(pieces)`. */
  function Join(pieces: seq<string>, glue: string): string {
    if |pieces| == 0 then ""
    else if |pieces| == 1 then pieces[0]
    else pieces[0] + glue + Join(pieces[1..], glue)
  }

  /** Splitting on `sep` and joining back with `sep` gives the original string. */
  lemma {:induction false} SplitJoin(s: string, sep: char)
    ensures Join(Split(s, sep), [sep]) == s
    decreases |s|
  {
    if sep in s {
      var i := IndexOf(s, sep);
      var rest := s[i + 1..];
      var pieces := Split(s, sep);
      SplitJoin(rest, sep);
      assert pieces == [s[..i]] + Split(rest, sep);
      assert pieces[1..] == Split(rest, sep);
      assert Join(pieces, [sep]) == s[..i] + [sep] + rest;
      assert s == s[..i] + [sep] + rest;
    }
  }

  /** There is one more piece than there are separators. */
  lemma {:induction false} SplitCount(s: string, sep: char)
    ensures |Split(s, sep)| == multiset(s)[sep] + 1
    decreases |s|
  {
    if sep in s {
      var i := IndexOf(s, sep);
      var rest := s[i + 1..];
      SplitCount(rest, sep);
      assert s == s[..i] + [sep] + rest;
    } else {
      assert sep !in multiset(s);
    }
  }

  /** `summarize_text` (app.py:70-72): strip, split on ".", keep the first two
      pieces, join them with ". " and strip again. */
  function SummarizeText(text: string): (summary: string)
    ensures Trimmed(summary)
  {
    var sentences := Split(Strip(text), '.');
    Strip(Join(sentences[..Min(2, |sentences|)], ". "))
  }

  /** The text before the first "." of `u`, or all of `u` if it has none. */
  function UpToDot(u: string): (r: string)
    ensures '.' !in r
  {
    if '.' in u then u[..IndexOf(u, '.')] else u
  }

  /** The summary's value before the final strip, read off the stripped text:
      the text before the first "." (all of it if there is none), then, if
      there is a ".", the glue ". " and the text after it up to the next "."
      or the end. */
  function FirstTwoSentences(s: string): string {
    if '.' !in s then s
    else
      var i := IndexOf(s, '.');
      s[..i] + ". " + UpToDot(s[i + 1..])
  }

  /** Keeping the first two pieces of the split and joining them with ". "
      gives `FirstTwoSentences`. */
  lemma JoinFirstTwo(s: string)
    ensures var sentences := Split(s, '.');
      Join(sentences[..Min(2, |sentences|)], ". ") == FirstTwoSentences(s)
  {
    if '.' in s {
      var i := IndexOf(s, '.');
      var rest := s[i + 1..];
      var tail := Split(rest, '.');
      assert tail[0] == UpToDot(rest);
      assert Split(s, '.')[..2] == [s[..i], tail[0]];
    }
  }

  /** `summarize_text` is "the first two sentences of the stripped text,
      glued by '. ', stripped". */
  lemma SummaryIsFirstTwoSentences(text: string)
    ensures SummarizeText(text) == Strip(FirstTwoSentences(Strip(text)))
  {
    JoinFirstTwo(Strip(text));
  }

  /** `FirstTwoSentences` holds a "." exactly when its argument does, and then only one. */
  lemma FirstTwoDots(s: string)
    ensures multiset(FirstTwoSentences(s))['.'] == if '.' in s then 1 else 0
  {
    if '.' in s {
      var i := IndexOf(s, '.');
      var head, tail := s[..i], UpToDot(s[i + 1..]);
      assert FirstTwoSentences(s) == head + ". " + tail;
      assert multiset(head + ". " + tail) == multiset(head) + multiset(". ") + multiset(tail);
      assert multiset(". ")['.'] == 1;
      assert '.' !in multiset(head) && '.' !in multiset(tail);
    } else {
      assert '.' !in multiset(s);
    }
  }

  /** The summary holds at most one ".": no piece of the split holds one and
      joining at most two pieces adds at most one. */
  lemma SummaryAtMostOneDot(text: string)
    ensures multiset(SummarizeText(text))['.'] <= 1
  {
    SummaryIsFirstTwoSentences(text);
    FirstTwoDots(Strip(text));
    StripKeepsCount(FirstTwoSentences(Strip(text)), '.');
  }

  /** A text without "." summarizes to itself, stripped. */
  lemma SummaryWithoutDot(text: string)
    requires '.' !in text
    ensures SummarizeText(text) == Strip(text)
  {
    var s := Strip(text);
    assert '.' !in s by {
      StripKeepsCount(text, '.');
      assert '.' !in multiset(text);
      assert '.' !in multiset(s);
    }
    assert FirstTwoSentences(s) == s;
    SummaryIsFirstTwoSentences(text);
    StripIdempotent(text);
  }

  /** A string with a "." never strips to nothing. */
  lemma DottedStripsToSomething(u: string)
    requires '.' in u
    ensures Strip(u) != ""
  {
    StripKeepsCount(u, '.');
    assert '.' in multiset(u);
  }

  /** The summary is empty exactly when the text is empty or all whitespace:
      once the stripped text has a ".", the summary keeps it. */
  lemma SummaryEmptyIffBlank(text: string)
    ensures SummarizeText(text) == "" <==> AllSpace(text)
  {
    var s := Strip(text);
    SummaryIsFirstTwoSentences(text);
    StripEmptyIffBlank(text);
    if '.' in s {
      var cut := FirstTwoSentences(s);
      FirstTwoDots(s);
      assert '.' in multiset(cut);
      DottedStripsToSomething(cut);
    } else {
      StripIdempotent(text);
    }
  }

  lemma ThreeSentencesCut()
    ensures FirstTwoSentences("A. B. C.") == "A.  B"
  {
    var s := "A. B. C.";
    assert s[0] != '.' && s[1] == '.';
    assert IndexOf(s, '.') == 1;
    var rest := s[2..];
    assert rest == " B. C.";
    assert rest[0] != '.' && rest[1] != '.' && rest[2] == '.';
    assert IndexOf(rest, '.') == 2;
    assert rest[..2] == " B";
  }

  lemma ThreeSentencesTrimmed()
    ensures Strip("A. B. C.") == "A. B. C."
  {
    StripTrimmed("A. B. C.");
  }

  lemma TwoSentencesTrimmed()
    ensures Strip("A.  B") == "A.  B"
  {
    StripTrimmed("A.  B");
  }

  /** The three-sentence example: the piece " B" keeps its leading space, so the
      glue ". " leaves two spaces after the first ".". */
  lemma SummaryOfThreeSentences()
    ensures SummarizeText("A. B. C.") == "A.  B"
  {
    ThreeSentencesTrimmed();
    ThreeSentencesCut();
    TwoSentencesTrimmed();
    SummaryIsFirstTwoSentences("A. B. C.");
  }
}
