/**
 * The parts of Python's `str` that the bot relies on: `isspace`, `strip()`,
 * `lower()` and `split()` with no arguments.
 */
module Text {

  /** Python's `str.isspace` on one character: the whitespace `strip()` removes and `split()` splits on. */
  predicate IsSpace(c: char) {
    ('\t' <= c <= '\r') || ('\U{1C}' <= c <= ' ') || c == '\U{85}' || c == '\U{A0}' || c == '\U{1680}'
    || ('\U{2000}' <= c <= '\U{200A}') || c == '\U{2028}' || c == '\U{2029}' || c == '\U{202F}'
    || c == '\U{205F}' || c == '\U{3000}'
  }

  predicate AllSpace(s: string) {
    forall i :: 0 <= i < |s| ==> IsSpace(s[i])
  }

  predicate NoSpace(s: string) {
    forall i :: 0 <= i < |s| ==> !IsSpace(s[i])
  }

  /** A string that `strip()` leaves as it is: empty, or with no whitespace at either end. */
  predicate IsStripped(s: string) {
    s == [] || (!IsSpace(s[0]) && !IsSpace(s[|s| - 1]))
  }

  /** Length of the leading run of whitespace of `s`. */
  function LeadingSpace(s: string): (n: nat)
    ensures n <= |s| && AllSpace(s[..n])
    ensures n < |s| ==> !IsSpace(s[n])
  {
    if s != [] && IsSpace(s[0]) then 1 + LeadingSpace(s[1..]) else 0
  }

  /** Length of `s` without its trailing run of whitespace. */
  function TrailingStart(s: string): (n: nat)
    ensures n <= |s| && AllSpace(s[n..])
    ensures 0 < n ==> !IsSpace(s[n - 1])
  {
    if s != [] && IsSpace(s[|s| - 1]) then TrailingStart(s[..|s| - 1]) else |s|
  }

  /** `lstrip()`: the suffix of `s` that starts at its first non-whitespace character. */
  function TrimStart(s: string): string {
    s[LeadingSpace(s)..]
  }

  /** `rstrip()`: the prefix of `s` that ends at its last non-whitespace character. */
  function TrimEnd(s: string): string {
    s[..TrailingStart(s)]
  }

  /**
   * `strip()`: `s` without its leading and trailing whitespace. The result has
   * no whitespace at either end and is empty exactly when `s` is blank;
   * StripIsSlice says where in `s` it lies.
   */
  function Strip(s: string): (r: string)
    ensures IsStripped(r)
    ensures r == [] <==> AllSpace(s)
  {
    StripBlank(s);
    TrimEnd(TrimStart(s))
  }

  lemma StripBlank(s: string)
    ensures TrimEnd(TrimStart(s)) == [] <==> AllSpace(s)
  {
    var t := TrimStart(s);
    var a := |s| - |t|;
    if t != [] {
      assert t[0] == s[a];
    }
    if TrimEnd(t) == [] {
      assert t == [];
      assert s[..a] == s;
    }
  }

  /** The stripped string is a slice of `s` with only whitespace before and after it. */
  lemma StripIsSlice(s: string)
    ensures exists a, b :: 0 <= a <= b <= |s| && Strip(s) == s[a..b] && AllSpace(s[..a]) && AllSpace(s[b..])
  {
    var t := TrimStart(s);
    var r := TrimEnd(t);
    var a := |s| - |t|;
    assert s[a..a + |r|] == r;
    assert s[a + |r|..] == t[|r|..];
  }

  /** `strip()` leaves a stripped string unchanged. */
  lemma StripStripped(s: string)
    requires IsStripped(s)
    ensures Strip(s) == s
  {
  }

  /** `strip()` is idempotent. */
  lemma StripIdempotent(s: string)
    ensures Strip(Strip(s)) == Strip(s)
  {
    StripStripped(Strip(s));
  }

  /**
   * `lower()` on one character: ASCII capitals and the Latin-1 capitals
   * U+00C0..U+00DE (except the multiplication sign U+00D7) map to the letter
   * 32 code points above; every other character is left alone.
   */
  function LowerChar(c: char): char {
    if 'A' <= c <= 'Z' || ('\U{C0}' <= c <= '\U{DE}' && c != '\U{D7}') then (c as int + 32) as char else c
  }

  /** `lower()`: character by character, the length unchanged. */
  function Lower(s: string): (r: string)
    ensures |r| == |s|
    ensures forall i :: 0 <= i < |s| ==> r[i] == LowerChar(s[i])
  {
    if s == [] then [] else [LowerChar(s[0])] + Lower(s[1..])
  }

  /** Lower-casing twice is lower-casing once. */
  lemma LowerIdempotent(s: string)
    ensures Lower(Lower(s)) == Lower(s)
  {
    assert forall i :: 0 <= i < |s| ==> LowerChar(LowerChar(s[i])) == LowerChar(s[i]);
  }

  /** Lower-casing neither creates nor removes whitespace, so a stripped string stays stripped. */
  lemma LowerKeepsStripped(s: string)
    requires IsStripped(s)
    ensures IsStripped(Lower(s))
    ensures AllSpace(Lower(s)) <==> AllSpace(s)
  {
    assert forall c: char :: IsSpace(LowerChar(c)) == IsSpace(c);
    assert forall c: char :: IsSpace(c) ==> LowerChar(c) == c;
  }

  /** Length of the leading run of non-whitespace characters of `s`. */
  function WordLength(s: string): (n: nat)
    ensures n <= |s| && NoSpace(s[..n])
    ensures n < |s| ==> IsSpace(s[n])
  {
    if s == [] || IsSpace(s[0]) then 0 else 1 + WordLength(s[1..])
  }

  /**
   * `split()` with no separator: the maximal runs of non-whitespace characters,
   * in order; it never yields an empty word.
   */
  function Split(s: string): (ws: seq<string>)
    ensures forall k :: 0 <= k < |ws| ==> ws[k] != [] && NoSpace(ws[k])
    decreases |s|
  {
    var t := TrimStart(s);
    if t == [] then []
    else
      var n := WordLength(t);
      [t[..n]] + Split(t[n..])
  }

  /** `" ".join(ws)`. */
  function JoinWords(ws: seq<string>): string
  {
    if |ws| == 0 then "" else if |ws| == 1 then ws[0] else ws[0] + " " + JoinWords(ws[1..])
  }

  /** A blank string has no words. */
  lemma SplitBlank(s: string)
    requires AllSpace(s)
    ensures Split(s) == []
  {
    assert TrimStart(s) == [];
  }

  /** A string that is not blank has at least one word. */
  lemma SplitNotBlank(s: string)
    requires !AllSpace(s)
    ensures Split(s) != []
  {
  }

  lemma SplitSkipsLeadingSpace(c: char, s: string)
    requires IsSpace(c)
    ensures Split([c] + s) == Split(s)
  {
    assert ([c] + s)[1..] == s;
  }

  lemma WordLengthOfWord(w: string, rest: string)
    requires NoSpace(w)
    requires rest == [] || IsSpace(rest[0])
    ensures WordLength(w + rest) == |w|
    decreases |w|
  {
    if w != [] {
      assert (w + rest)[1..] == w[1..] + rest;
      WordLengthOfWord(w[1..], rest);
    }
  }

  /** Leading whitespace of any kind and length does not change the words. */
  lemma {:induction false} SplitSkipsBlank(sp: string, s: string)
    requires AllSpace(sp)
    ensures Split(sp + s) == Split(s)
    decreases |sp|
  {
    if sp != [] {
      assert sp + s == [sp[0]] + (sp[1..] + s);
      SplitSkipsLeadingSpace(sp[0], sp[1..] + s);
      SplitSkipsBlank(sp[1..], s);
    } else {
      assert sp + s == s;
    }
  }

  /** A word followed by a run of whitespace is the first word; splitting goes on after the run. */
  lemma SplitWordThenBlank(w: string, sp: string, rest: string)
    requires w != [] && NoSpace(w)
    requires sp != [] && AllSpace(sp)
    ensures Split(w + sp + rest) == [w] + Split(rest)
  {
    var s := w + sp + rest;
    assert s == w + (sp + rest);
    WordLengthOfWord(w, sp + rest);
    assert TrimStart(s) == s;
    assert s[..|w|] == w;
    assert s[|w|..] == sp + rest;
    SplitSkipsBlank(sp, rest);
  }

  /** Splitting words joined by single spaces gives the words back. */
  lemma {:induction false} SplitJoin(ws: seq<string>)
    requires forall k :: 0 <= k < |ws| ==> ws[k] != [] && NoSpace(ws[k])
    ensures Split(JoinWords(ws)) == ws
  {
    if |ws| == 0 {
    } else if |ws| == 1 {
      var w := ws[0];
      WordLengthOfWord(w, []);
      assert w + [] == w;
      assert TrimStart(w) == w;
      assert w[|w|..] == [];
    } else {
      var w, rest := ws[0], JoinWords(ws[1..]);
      var s := w + " " + rest;
      assert s == w + (" " + rest);
      WordLengthOfWord(w, " " + rest);
      assert TrimStart(s) == s;
      assert s[..|w|] == w;
      assert s[|w|..] == [' '] + rest;
      SplitSkipsLeadingSpace(' ', rest);
      SplitJoin(ws[1..]);
    }
  }
}
