/**
 * The keyword file `keywords.txt`: one phrase per line. Saving writes every
 * phrase followed by a newline; loading reads the file line by line in
 * Python's universal-newline text mode, strips every line and keeps the
 * ones that are not blank.
 */
module KeywordFile {
  import opened Text

  /** What the file system holds: no file, a file that cannot be read or decoded, or its text. */
  datatype Storage = Missing | Unreadable | Present(text: string)

  /** The characters that end a line in universal-newline mode (`\r\n` ends one line too). */
  predicate IsLineBreak(c: char) {
    c == '\n' || c == '\r'
  }

  predicate NoLineBreak(s: string) {
    forall i :: 0 <= i < |s| ==> !IsLineBreak(s[i])
  }

  /** Index of the first line break in `s`, or `|s|` when there is none. */
  function BreakIndex(s: string): (n: nat)
    ensures n <= |s| && NoLineBreak(s[..n])
    ensures n < |s| ==> IsLineBreak(s[n])
  {
    if s == [] || IsLineBreak(s[0]) then 0 else 1 + BreakIndex(s[1..])
  }

  /**
   * The lines of a text file, without their terminators: `\n`, `\r\n` and a
   * lone `\r` each end a line. The last piece is what follows the last
   * terminator, possibly empty.
   */
  function Lines(s: string): (ls: seq<string>)
    ensures |ls| >= 1
    ensures forall k :: 0 <= k < |ls| ==> NoLineBreak(ls[k])
    decreases |s|
  {
    var n := BreakIndex(s);
    if n == |s| then [s]
    else
      var next := if s[n] == '\r' && n + 1 < |s| && s[n + 1] == '\n' then n + 2 else n + 1;
      [s[..n]] + Lines(s[next..])
  }

  /** A text without a line break is one line. */
  lemma LinesOfLine(a: string)
    requires NoLineBreak(a)
    ensures Lines(a) == [a]
  {
    assert a[..|a|] == a;
    BreakIndexAt(a, |a|);
  }

  lemma BreakIndexAt(s: string, n: nat)
    requires n <= |s| && NoLineBreak(s[..n]) && (n < |s| ==> IsLineBreak(s[n]))
    ensures BreakIndex(s) == n
    decreases n
  {
    if n > 0 {
      assert s[0] == s[..n][0];
      assert s[1..][..n - 1] == s[..n][1..];
      BreakIndexAt(s[1..], n - 1);
    }
  }

  /**
   * Each of `\n`, `\r\n` and a lone `\r` (one not followed by `\n`) ends a
   * line: the text before it is a line, and reading goes on after it.
   */
  lemma LinesAfterBreak(a: string, t: string, b: string)
    requires NoLineBreak(a)
    requires t == "\n" || t == "\r\n" || (t == "\r" && (b == [] || b[0] != '\n'))
    ensures Lines(a + t + b) == [a] + Lines(b)
  {
    var s := a + t + b;
    assert s[..|a|] == a;
    BreakIndexAt(s, |a|);
    assert s[|a|] == t[0];
    if t == "\r\n" {
      assert s[|a| + 1] == '\n';
      assert s[|a| + 2..] == b;
    } else {
      assert s[|a| + 1..] == b;
    }
  }

  /** A phrase that survives a save and a load: not empty, stripped, on one line. */
  predicate Storable(k: string) {
    k != [] && IsStripped(k) && NoLineBreak(k)
  }

  lemma StripKeepsNoLineBreak(s: string)
    requires NoLineBreak(s)
    ensures NoLineBreak(Strip(s))
  {
    StripIsSlice(s);
    var a, b :| 0 <= a <= b <= |s| && Strip(s) == s[a..b];
    assert forall i :: 0 <= i < b - a ==> Strip(s)[i] == s[a + i];
  }

  /** `[line.strip() for line in lines if line.strip()]`. */
  function KeepNonBlank(ls: seq<string>): (ks: seq<string>)
    ensures |ks| <= |ls|
    ensures forall k :: 0 <= k < |ks| ==> ks[k] != [] && IsStripped(ks[k])
  {
    if ls == [] then []
    else
      var t := Strip(ls[0]);
      var rest := KeepNonBlank(ls[1..]);
      if t == [] then rest else [t] + rest
  }

  /** One line gives its stripped text, or nothing when it is blank. */
  lemma KeepNonBlankOne(l: string)
    ensures KeepNonBlank([l]) == if AllSpace(l) then [] else [Strip(l)]
  {
    assert [l][1..] == [];
  }

  /** The comprehension works line by line: it distributes over concatenation. */
  lemma {:induction false} KeepNonBlankAppend(l1: seq<string>, l2: seq<string>)
    ensures KeepNonBlank(l1 + l2) == KeepNonBlank(l1) + KeepNonBlank(l2)
  {
    if l1 != [] {
      assert (l1 + l2)[0] == l1[0];
      assert (l1 + l2)[1..] == l1[1..] + l2;
      KeepNonBlankAppend(l1[1..], l2);
    } else {
      assert l1 + l2 == l2;
    }
  }

  lemma {:induction false} KeepNonBlankNoLineBreak(ls: seq<string>)
    requires forall k :: 0 <= k < |ls| ==> NoLineBreak(ls[k])
    ensures forall k :: 0 <= k < |KeepNonBlank(ls)| ==> NoLineBreak(KeepNonBlank(ls)[k])
  {
    if ls != [] {
      StripKeepsNoLineBreak(ls[0]);
      KeepNonBlankNoLineBreak(ls[1..]);
    }
  }

  /**
   * `load_keywords`: a missing file, and one that cannot be read, give no
   * keywords; otherwise every line that is not blank gives one stripped phrase.
   */
  function Load(f: Storage): (ks: seq<string>)
    ensures !f.Present? ==> ks == []
    ensures forall k :: 0 <= k < |ks| ==> Storable(ks[k])
  {
    match f
    case Present(text) =>
      KeepNonBlankNoLineBreak(Lines(text));
      KeepNonBlank(Lines(text))
    case _ => []
  }

  /**
   * Loading reads a file line by line, whatever ends each line: the first
   * line contributes its stripped text unless it is blank.
   */
  lemma LoadLine(a: string, t: string, b: string)
    requires NoLineBreak(a)
    requires t == "\n" || t == "\r\n" || (t == "\r" && (b == [] || b[0] != '\n'))
    ensures Load(Present(a + t + b)) == (if AllSpace(a) then [] else [Strip(a)]) + Load(Present(b))
  {
    LinesAfterBreak(a, t, b);
    KeepNonBlankAppend([a], Lines(b));
    KeepNonBlankOne(a);
  }

  /** The text `save_keywords` writes: each phrase followed by `\n`. */
  function SaveText(ks: seq<string>): string
  {
    if ks == [] then "" else ks[0] + "\n" + SaveText(ks[1..])
  }

  /** The loop of `save_keywords`, writing one line per phrase in list order. */
  method WriteLines(ks: seq<string>) returns (text: string)
    ensures text == SaveText(ks)
  {
    text := "";
    var i := 0;
    while i < |ks|
      invariant 0 <= i <= |ks|
      invariant text + SaveText(ks[i..]) == SaveText(ks)
    {
      assert ks[i..][1..] == ks[i + 1..];
      text := text + ks[i] + "\n";
      i := i + 1;
    }
    assert ks[i..] == [];
  }

  lemma BreakIndexOfLine(k: string, rest: string)
    requires NoLineBreak(k)
    ensures BreakIndex(k + "\n" + rest) == |k|
    decreases |k|
  {
    if k != [] {
      assert (k + "\n" + rest)[1..] == k[1..] + "\n" + rest;
      BreakIndexOfLine(k[1..], rest);
    }
  }

  /** Reading back saved one-line phrases gives those phrases and a final empty piece. */
  lemma {:induction false} LinesOfSaveText(ks: seq<string>)
    requires forall k :: 0 <= k < |ks| ==> NoLineBreak(ks[k])
    ensures Lines(SaveText(ks)) == ks + [""]
  {
    if ks != [] {
      var k, rest := ks[0], SaveText(ks[1..]);
      var s := k + "\n" + rest;
      BreakIndexOfLine(k, rest);
      assert s[..|k|] == k;
      assert s[|k| + 1..] == rest;
      LinesOfSaveText(ks[1..]);
      assert ks == [k] + ks[1..];
    }
  }

  lemma {:induction false} KeepNonBlankStorable(ks: seq<string>)
    requires forall k :: 0 <= k < |ks| ==> Storable(ks[k])
    ensures KeepNonBlank(ks + [""]) == ks
  {
    var ls := ks + [""];
    if ks == [] {
      assert ls == [""];
      StripStripped("");
      assert KeepNonBlank(ls) == KeepNonBlank(ls[1..]);
    } else {
      var k := ks[0];
      assert ls[0] == k && Storable(k);
      StripStripped(k);
      assert ls[1..] == ks[1..] + [""];
      KeepNonBlankStorable(ks[1..]);
      assert KeepNonBlank(ls) == [k] + KeepNonBlank(ls[1..]);
      assert ks == [k] + ks[1..];
    }
  }

  /** Loading what was saved gives back the same phrases in the same order, when each is storable. */
  lemma LoadSave(ks: seq<string>)
    requires forall k :: 0 <= k < |ks| ==> Storable(ks[k])
    ensures Load(Present(SaveText(ks))) == ks
  {
    LinesOfSaveText(ks);
    KeepNonBlankStorable(ks);
  }

  /**
   * A phrase that spans two lines is saved as two lines and so comes back
   * from the file as two phrases.
   */
  lemma MultiLinePhraseSplits(a: string, b: string)
    requires Storable(a) && Storable(b)
    ensures Load(Present(SaveText([a + "\n" + b]))) == [a, b]
  {
    var s := SaveText([a + "\n" + b]);
    assert s == a + "\n" + SaveText([b]);
    BreakIndexOfLine(a, SaveText([b]));
    assert s[..|a|] == a && s[|a| + 1..] == SaveText([b]);
    LinesOfSaveText([b]);
    assert Lines(s) == [a, b] + [""];
    KeepNonBlankStorable([a, b]);
  }
}
