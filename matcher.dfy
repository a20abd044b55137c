/**
 * Keyword matching: a phrase matches a lower-cased message when every
 * whitespace-separated word of the phrase occurs in the message as a whole
 * word. The source builds `\b` + re.escape(word) + `\b` for each word; the
 * module models that pattern exactly (RegexWordBoundary) and the whole-word
 * rule it is meant to implement (NonWordOrEdge), and proves where the two agree.
 */
module Matcher {
  import opened Wrappers
  import opened Text

  /**
   * A character of the regular-expression class `\w` within Latin-1: `_` and
   * the characters `str.isalnum` accepts. Those are the ASCII letters and
   * digits, the letters U+00C0..U+00FF other than the signs U+00D7 and U+00F7,
   * the ordinal indicators U+00AA and U+00BA, the micro sign U+00B5, the
   * superscript digits U+00B2, U+00B3, U+00B9 and the fractions U+00BC..U+00BE.
   */
  predicate IsWordChar(c: char) {
    ('a' <= c <= 'z') || ('A' <= c <= 'Z') || ('0' <= c <= '9') || c == '_'
    || ('\U{C0}' <= c <= '\U{FF}' && c != '\U{D7}' && c != '\U{F7}')
    || c == '\U{AA}' || c == '\U{B2}' || c == '\U{B3}' || c == '\U{B5}' || c == '\U{B9}' || c == '\U{BA}'
    || ('\U{BC}' <= c <= '\U{BE}')
  }

  /** The two readings of "whole word": the `\b` assertion, and "a non-word character or the edge". */
  datatype Boundary = RegexWordBoundary | NonWordOrEdge

  predicate WordCharBefore(t: string, p: nat) {
    0 < p <= |t| && IsWordChar(t[p - 1])
  }

  predicate WordCharAfter(t: string, p: nat) {
    p < |t| && IsWordChar(t[p])
  }

  /** The condition at position `p`, the start (`atStart`) or the end of an occurrence. */
  predicate BoundaryAt(mode: Boundary, t: string, p: nat, atStart: bool) {
    match mode
    case RegexWordBoundary => WordCharBefore(t, p) != WordCharAfter(t, p)
    case NonWordOrEdge => if atStart then !WordCharBefore(t, p) else !WordCharAfter(t, p)
  }

  /** `w` occurs literally in `t` at index `i`, with the boundary condition on both sides. */
  predicate WordAt(mode: Boundary, w: string, t: string, i: nat) {
    i + |w| <= |t| && t[i..i + |w|] == w && BoundaryAt(mode, t, i, true) && BoundaryAt(mode, t, i + |w|, false)
  }

  /** The leftmost index at or after `from` where `w` occurs as a whole word, as `re.search` scans. */
  function Find(mode: Boundary, w: string, t: string, from: nat): (r: Option<nat>)
    ensures r.Some? ==> from <= r.value && WordAt(mode, w, t, r.value)
    ensures r.Some? ==> forall i :: from <= i < r.value ==> !WordAt(mode, w, t, i)
    ensures r.None? ==> forall i :: from <= i ==> !WordAt(mode, w, t, i)
    decreases |t| + 1 - from
  {
    if from > |t| then None
    else if WordAt(mode, w, t, from) then Some(from)
    else Find(mode, w, t, from + 1)
  }

  /** Some occurrence of `w` in `t` satisfies the boundary condition. */
  function Occurs(mode: Boundary, w: string, t: string): (b: bool)
    ensures b <==> exists i: nat :: WordAt(mode, w, t, i)
  {
    Find(mode, w, t, 0).Some?
  }

  /**
   * `w` stands in `t` at index `i` preceded by a non-word character or the
   * start, and followed by a non-word character or the end.
   */
  predicate WholeWordAt(w: string, t: string, i: nat) {
    i + |w| <= |t| && t[i..i + |w|] == w
    && (i == 0 || !IsWordChar(t[i - 1])) && (i + |w| == |t| || !IsWordChar(t[i + |w|]))
  }

  /** The explicit search for a whole-word occurrence of `w` in `t`. */
  function OccursAsWholeWord(w: string, t: string): (b: bool)
    ensures b <==> exists i: nat :: WholeWordAt(w, t, i)
  {
    var b := Occurs(NonWordOrEdge, w, t);
    assert forall i: nat :: WordAt(NonWordOrEdge, w, t, i) <==> WholeWordAt(w, t, i);
    b
  }

  /** `all(search(word) for word in words)`, stopping at the first word that is missing. */
  function AllOccur(mode: Boundary, words: seq<string>, t: string): (b: bool)
    ensures b <==> forall w :: w in words ==> Occurs(mode, w, t)
  {
    if words == [] then true
    else if !Occurs(mode, words[0], t) then false
    else
      var b := AllOccur(mode, words[1..], t);
      assert forall w :: w in words <==> w == words[0] || w in words[1..];
      b
  }

  /** Every word of `phrase.split()` occurs in `text` under the boundary reading `mode`. */
  function PhraseMatches(mode: Boundary, text: string, phrase: string): bool
  {
    AllOccur(mode, Split(phrase), text)
  }

  /** The test exactly as the source writes it, with `\b` on both sides of every word. */
  function MatchesAsWritten(text: string, phrase: string): (b: bool)
    ensures b <==> forall w :: w in Split(phrase) ==> Occurs(RegexWordBoundary, w, text)
  {
    PhraseMatches(RegexWordBoundary, text, phrase)
  }

  /** The test the source intends: every word of the phrase is a whole word of the message. */
  function Matches(text: string, phrase: string): bool
  {
    PhraseMatches(NonWordOrEdge, text, phrase)
  }

  /** A phrase matches exactly when each of its words is a whole word of the text. */
  lemma MatchesMeans(text: string, phrase: string)
    ensures Matches(text, phrase) <==> forall w :: w in Split(phrase) ==> OccursAsWholeWord(w, text)
  {
    assert forall w :: OccursAsWholeWord(w, text) == Occurs(NonWordOrEdge, w, text);
  }

  /**
   * For a word that starts and ends with a word character the two readings
   * agree at every index, so for such keywords the source behaves as intended.
   */
  lemma BoundariesAgree(w: string, t: string, i: nat)
    requires w != [] && IsWordChar(w[0]) && IsWordChar(w[|w| - 1])
    ensures WordAt(RegexWordBoundary, w, t, i) <==> WordAt(NonWordOrEdge, w, t, i)
  {
    if i + |w| <= |t| && t[i..i + |w|] == w {
      assert t[i] == w[0] && t[i + |w| - 1] == w[|w| - 1];
    }
  }

  /** A word made of word characters only. */
  predicate IsPlainWord(w: string) {
    w != [] && forall k :: 0 <= k < |w| ==> IsWordChar(w[k])
  }

  /** When every word of a phrase is plain, the source's test is the intended one. */
  lemma MatchesAsWrittenAgrees(text: string, phrase: string)
    requires forall w :: w in Split(phrase) ==> IsPlainWord(w)
    ensures MatchesAsWritten(text, phrase) == Matches(text, phrase)
  {
    forall w | w in Split(phrase)
      ensures Occurs(RegexWordBoundary, w, text) == Occurs(NonWordOrEdge, w, text)
    {
      forall i: nat ensures WordAt(RegexWordBoundary, w, text, i) <==> WordAt(NonWordOrEdge, w, text, i) {
        BoundariesAgree(w, text, i);
      }
    }
  }

  /**
   * Under `\b`, a word that ends in a non-word character is found only where
   * a word character follows it: never before a space, punctuation or the end.
   */
  lemma AsWrittenNeedsWordCharAfter(w: string, t: string, i: nat)
    requires w != [] && !IsWordChar(w[|w| - 1])
    requires WordAt(RegexWordBoundary, w, t, i)
    ensures WordCharAfter(t, i + |w|)
  {
    assert t[i..i + |w|][|w| - 1] == t[i + |w| - 1];
  }

  /**
   * The discrepancy: a keyword word ending in a non-word character, such as
   * "50%", does not match a message consisting of exactly that word, although
   * it stands there as a whole word.
   */
  lemma KeywordEndingInSymbolMissed(w: string)
    requires w != [] && NoSpace(w) && !IsWordChar(w[|w| - 1])
    ensures !MatchesAsWritten(w, w)
    ensures Matches(w, w)
  {
    SplitOneWord(w);
    BareWordFound(w);
    BareWordMissedAsWritten(w);
  }

  lemma BareWordFound(w: string)
    ensures Occurs(NonWordOrEdge, w, w)
  {
    assert w[0..|w|] == w;
    assert WordAt(NonWordOrEdge, w, w, 0);
  }

  lemma BareWordMissedAsWritten(w: string)
    requires w != [] && !IsWordChar(w[|w| - 1])
    ensures !Occurs(RegexWordBoundary, w, w)
  {
    forall i: nat ensures !WordAt(RegexWordBoundary, w, w, i) {
      if WordAt(RegexWordBoundary, w, w, i) {
        AsWrittenNeedsWordCharAfter(w, w, i);
      }
    }
  }

  lemma SplitOneWord(w: string)
    requires w != [] && NoSpace(w)
    ensures Split(w) == [w]
  {
    SplitJoin([w]);
  }

  /**
   * The discrepancy the other way: a word that starts with a word character
   * and ends in a symbol, directly followed by a word character (`r$` in
   * `r$3`), matches under `\b` although it is not a whole word there.
   */
  lemma SymbolBeforeWordCharFound(w: string, c: char)
    requires w != [] && NoSpace(w) && IsWordChar(w[0]) && !IsWordChar(w[|w| - 1]) && IsWordChar(c)
    ensures MatchesAsWritten(w + [c], w)
    ensures !Matches(w + [c], w)
  {
    var t := w + [c];
    SplitOneWord(w);
    assert t[0..|w|] == w;
    assert WordAt(RegexWordBoundary, w, t, 0);
    forall i: nat ensures !WordAt(NonWordOrEdge, w, t, i) {
      if i + |w| <= |t| && t[i..i + |w|] == w && i == 1 {
        assert t[0] == w[0];
      }
    }
  }

  lemma DollarKeywordFoundAsWritten()
    ensures MatchesAsWritten("r$3", "r$")
    ensures !Matches("r$3", "r$")
  {
    SymbolBeforeWordCharFound("r$", '3');
    assert "r$" + ['3'] == "r$3";
  }

  lemma PercentKeywordMissed()
    ensures !MatchesAsWritten("50%", "50%")
    ensures Matches("50%", "50%")
  {
    KeywordEndingInSymbolMissed("50%");
  }

  /** The order of the two words of a phrase does not matter, under either reading: a case of SameWordsSameMatch. */
  lemma WordOrderIrrelevant(mode: Boundary, text: string, a: string, b: string)
    requires a != [] && NoSpace(a) && b != [] && NoSpace(b)
    ensures PhraseMatches(mode, text, a + " " + b) == PhraseMatches(mode, text, b + " " + a)
  {
    SplitJoin([a, b]);
    SplitJoin([b, a]);
    assert JoinWords([a, b]) == a + " " + b;
    assert JoinWords([b, a]) == b + " " + a;
    SameWordsSameMatch(mode, text, a + " " + b, b + " " + a);
  }

  /** Phrases with the same words, in any order and with any repetition, match the same texts, under either reading. */
  lemma SameWordsSameMatch(mode: Boundary, text: string, p: string, q: string)
    requires forall w :: w in Split(p) <==> w in Split(q)
    ensures PhraseMatches(mode, text, p) == PhraseMatches(mode, text, q)
  {
  }

  /** A blank message matches no phrase that has a word, under either reading; in particular no stored keyword. */
  lemma BlankTextMatchesNothing(mode: Boundary, text: string, phrase: string)
    requires AllSpace(text) && !AllSpace(phrase)
    ensures !PhraseMatches(mode, text, phrase)
  {
    SplitNotBlank(phrase);
    var w := Split(phrase)[0];
    assert w != [] && !IsSpace(w[0]);
    NoWordInBlank(mode, w, text);
  }

  lemma NoWordInBlank(mode: Boundary, w: string, text: string)
    requires AllSpace(text) && w != [] && !IsSpace(w[0])
    ensures !Occurs(mode, w, text)
  {
    forall i: nat ensures !WordAt(mode, w, text, i) {
      if i + |w| <= |text| {
        assert text[i..i + |w|][0] == text[i];
      }
    }
  }
}
