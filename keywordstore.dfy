/**
 * The keyword list the command handlers edit and the message handler reads:
 * the global `KEYWORDS` together with the file it is saved to after every
 * change. Each command is a pure step on the list (AddKeyword, RemoveKeyword);
 * the class Store applies it to its fields and saves.
 */
module KeywordStore {
  import opened Text
  import opened Sorting
  import opened Wrappers
  import KeywordFile

  /** What the handlers do to a typed phrase first: `text.strip().lower()`. */
  function Normalize(input: string): (p: string)
    ensures IsStripped(p)
    ensures p == [] <==> AllSpace(input)
    ensures Lower(p) == p
  {
    LowerKeepsStripped(Strip(input));
    LowerIdempotent(Strip(input));
    Lower(Strip(input))
  }

  /** Normalizing twice is normalizing once, so a listed phrase normalizes to itself. */
  lemma NormalizeIdempotent(input: string)
    ensures Normalize(Normalize(input)) == Normalize(input)
  {
    var p := Normalize(input);
    StripStripped(p);
  }

  /** One line of typed input keeps its phrase on one line. */
  lemma NormalizeNoLineBreak(input: string)
    requires KeywordFile.NoLineBreak(input)
    ensures KeywordFile.NoLineBreak(Normalize(input))
  {
    KeywordFile.StripKeepsNoLineBreak(input);
  }

  predicate NoDuplicates(ks: seq<string>) {
    forall i, j :: 0 <= i < j < |ks| ==> ks[i] != ks[j]
  }

  /** The list invariant the add command keeps: no phrase twice, no empty phrase. */
  predicate WellFormed(ks: seq<string>) {
    NoDuplicates(ks) && forall i :: 0 <= i < |ks| ==> ks[i] != []
  }

  /** The reply of `add_received`: a re-prompt on empty input, "already listed", or "added". */
  datatype AddOutcome = EmptyPhrase | AlreadyListed(phrase: string) | Added(phrase: string)

  /** The reply of `delete_received`. */
  datatype RemoveOutcome = NotListed(phrase: string) | Removed(phrase: string)

  datatype AddStep = AddStep(outcome: AddOutcome, keywords: seq<string>)
  datatype RemoveStep = RemoveStep(outcome: RemoveOutcome, keywords: seq<string>)

  /** `add_received` on the list: normalize, reject empty input, reject a listed phrase, else append. */
  function AddKeyword(ks: seq<string>, input: string): (r: AddStep)
    ensures r.outcome == EmptyPhrase <==> AllSpace(input)
    ensures r.outcome.AlreadyListed? <==> !AllSpace(input) && Normalize(input) in ks
    ensures !r.outcome.Added? ==> r.keywords == ks
    ensures r.outcome.Added? ==>
      (r.outcome.phrase == Normalize(input) && r.outcome.phrase !in ks &&
       |r.keywords| == |ks| + 1 && r.keywords[..|ks|] == ks && r.keywords[|ks|] == r.outcome.phrase)
  {
    var p := Normalize(input);
    if p == [] then AddStep(EmptyPhrase, ks)
    else if p in ks then AddStep(AlreadyListed(p), ks)
    else
      assert (ks + [p])[..|ks|] == ks;
      AddStep(Added(p), ks + [p])
  }

  /** Index of the first occurrence of `p` in `ks`. */
  function IndexOf(ks: seq<string>, p: string): (i: nat)
    requires p in ks
    ensures i < |ks| && ks[i] == p
    ensures forall j :: 0 <= j < i ==> ks[j] != p
  {
    if ks[0] == p then 0 else 1 + IndexOf(ks[1..], p)
  }

  /** Python's `list.remove(p)`: drops the first occurrence of `p`. */
  function RemoveFirst(ks: seq<string>, p: string): (r: seq<string>)
    requires p in ks
    ensures |r| == |ks| - 1
    ensures multiset(r) == multiset(ks) - multiset{p}
  {
    var i := IndexOf(ks, p);
    assert ks == ks[..i] + [p] + ks[i + 1..];
    ks[..i] + ks[i + 1..]
  }

  /** `delete_received` on the list: normalize, then remove the phrase if it is listed. */
  function RemoveKeyword(ks: seq<string>, input: string): (r: RemoveStep)
    ensures r.outcome.phrase == Normalize(input)
    ensures r.outcome.Removed? <==> Normalize(input) in ks
    ensures r.outcome.NotListed? ==> r.keywords == ks
    ensures r.outcome.Removed? ==> r.keywords == RemoveFirst(ks, Normalize(input))
  {
    var p := Normalize(input);
    if p in ks then RemoveStep(Removed(p), RemoveFirst(ks, p)) else RemoveStep(NotListed(p), ks)
  }

  /** Removing a phrase keeps all the other phrases in their relative order. */
  lemma RemoveFirstKeepsOrder(ks: seq<string>, p: string)
    requires p in ks
    ensures var i, r := IndexOf(ks, p), RemoveFirst(ks, p);
      forall j :: 0 <= j < |r| ==> r[j] == (if j < i then ks[j] else ks[j + 1])
  {
    var i := IndexOf(ks, p);
    assert RemoveFirst(ks, p) == ks[..i] + ks[i + 1..];
  }

  /** From a list without duplicates, removing a phrase leaves no copy of it and no duplicates. */
  lemma RemoveFirstNoDuplicates(ks: seq<string>, p: string)
    requires p in ks && NoDuplicates(ks)
    ensures p !in RemoveFirst(ks, p)
    ensures NoDuplicates(RemoveFirst(ks, p))
    ensures forall q :: q in RemoveFirst(ks, p) <==> q in ks && q != p
  {
    var i := IndexOf(ks, p);
    var r := RemoveFirst(ks, p);
    RemoveFirstKeepsOrder(ks, p);
    forall q ensures q in r <==> q in ks && q != p {
      if q in ks && q != p {
        var j :| 0 <= j < |ks| && ks[j] == q;
        assert r[if j < i then j else j - 1] == q;
      }
    }
  }

  /** Adding keeps the list invariant. */
  lemma AddKeepsWellFormed(ks: seq<string>, input: string)
    requires WellFormed(ks)
    ensures WellFormed(AddKeyword(ks, input).keywords)
  {
    var r := AddKeyword(ks, input);
    if r.outcome.Added? {
      assert r.keywords == ks + [r.outcome.phrase];
    }
  }

  /** Removing keeps the list invariant. */
  lemma RemoveKeepsWellFormed(ks: seq<string>, input: string)
    requires WellFormed(ks)
    ensures WellFormed(RemoveKeyword(ks, input).keywords)
  {
    var p := Normalize(input);
    if p in ks {
      RemoveFirstNoDuplicates(ks, p);
      var i := IndexOf(ks, p);
      var r := RemoveFirst(ks, p);
      assert forall j :: 0 <= j < |r| ==> r[j] == (if j < i then ks[j] else ks[j + 1]);
    }
  }

  /** Adding the same text twice adds it once: the second answer is "already listed", the list unchanged. */
  lemma AddTwice(ks: seq<string>, input: string)
    requires !AllSpace(input)
    ensures var once := AddKeyword(ks, input).keywords;
      AddKeyword(once, input) == AddStep(AlreadyListed(Normalize(input)), once)
  {
    var once := AddKeyword(ks, input).keywords;
    assert Normalize(input) in once by {
      if Normalize(input) !in ks { assert once[|ks|] == Normalize(input); }
    }
  }

  /**
   * The list holds the stripped, lower-cased form of what was typed, and that
   * form is its own normal form: typing it again finds it listed.
   */
  lemma AddStoresNormalForm(ks: seq<string>, input: string)
    requires AddKeyword(ks, input).outcome.Added?
    ensures var p := AddKeyword(ks, input).keywords[|ks|];
      p == Lower(Strip(input)) && Normalize(p) == p
  {
    NormalizeIdempotent(input);
  }

  /** A command of the conversation that changes the list. */
  datatype Command = AddText(input: string) | DeleteText(input: string)

  function Apply(ks: seq<string>, c: Command): seq<string> {
    match c
    case AddText(input) => AddKeyword(ks, input).keywords
    case DeleteText(input) => RemoveKeyword(ks, input).keywords
  }

  /** The list after a run of commands, applied in order. */
  function ApplyAll(ks: seq<string>, cs: seq<Command>): seq<string>
    decreases |cs|
  {
    if cs == [] then ks else ApplyAll(Apply(ks, cs[0]), cs[1..])
  }

  /** Every run of add and delete commands keeps the list invariant. */
  lemma {:induction false} ApplyAllKeepsWellFormed(ks: seq<string>, cs: seq<Command>)
    requires WellFormed(ks)
    ensures WellFormed(ApplyAll(ks, cs))
    decreases |cs|
  {
    if cs != [] {
      match cs[0] {
        case AddText(input) => AddKeepsWellFormed(ks, input);
        case DeleteText(input) => RemoveKeepsWellFormed(ks, input);
      }
      ApplyAllKeepsWellFormed(Apply(ks, cs[0]), cs[1..]);
    }
  }

  predicate AllStorable(ks: seq<string>) {
    forall i :: 0 <= i < |ks| ==> KeywordFile.Storable(ks[i])
  }

  predicate SingleLine(c: Command) {
    KeywordFile.NoLineBreak(c.input)
  }

  lemma AddKeepsStorable(ks: seq<string>, input: string)
    requires AllStorable(ks) && KeywordFile.NoLineBreak(input)
    ensures AllStorable(AddKeyword(ks, input).keywords)
  {
    var r := AddKeyword(ks, input);
    if r.outcome.Added? {
      NormalizeNoLineBreak(input);
      assert r.keywords == ks + [Normalize(input)];
    }
  }

  lemma RemoveKeepsStorable(ks: seq<string>, input: string)
    requires AllStorable(ks)
    ensures AllStorable(RemoveKeyword(ks, input).keywords)
  {
    var p := Normalize(input);
    if p in ks {
      var i := IndexOf(ks, p);
      var r := RemoveFirst(ks, p);
      assert forall j :: 0 <= j < |r| ==> r[j] == (if j < i then ks[j] else ks[j + 1]);
    }
  }

  /** Every phrase stays storable as long as no command text spans several lines. */
  lemma {:induction false} ApplyAllKeepsStorable(ks: seq<string>, cs: seq<Command>)
    requires AllStorable(ks)
    requires forall i :: 0 <= i < |cs| ==> SingleLine(cs[i])
    ensures AllStorable(ApplyAll(ks, cs))
    decreases |cs|
  {
    if cs != [] {
      match cs[0] {
        case AddText(input) => AddKeepsStorable(ks, input);
        case DeleteText(input) => RemoveKeepsStorable(ks, input);
      }
      ApplyAllKeepsStorable(Apply(ks, cs[0]), cs[1..]);
    }
  }

  /**
   * Starting from the file's contents, after any run of one-line commands,
   * the file written by the last save reads back as exactly the list in memory.
   */
  lemma FileReloadsList(f: KeywordFile.Storage, cs: seq<Command>)
    requires forall i :: 0 <= i < |cs| ==> SingleLine(cs[i])
    ensures var ks := ApplyAll(KeywordFile.Load(f), cs);
      KeywordFile.Load(KeywordFile.Present(KeywordFile.SaveText(ks))) == ks
  {
    ApplyAllKeepsStorable(KeywordFile.Load(f), cs);
    KeywordFile.LoadSave(ApplyAll(KeywordFile.Load(f), cs));
  }

  /**
   * The keyword list and its file. The file is written after every change;
   * `writeOk` is false when opening or writing the file raises, which the
   * source logs and otherwise ignores.
   */
  class Store {
    var keywords: seq<string>
    var file: KeywordFile.Storage

    /** `KEYWORDS = load_keywords()` at start-up. */
    constructor Open(stored: KeywordFile.Storage)
      ensures keywords == KeywordFile.Load(stored) && file == stored
    {
      keywords := KeywordFile.Load(stored);
      file := stored;
    }

    /** `save_keywords(KEYWORDS)`: overwrite the file with the current list, or leave it on failure. */
    method Save(writeOk: bool)
      modifies this`file
      ensures file == if writeOk then KeywordFile.Present(KeywordFile.SaveText(keywords)) else old(file)
    {
      var text := KeywordFile.WriteLines(keywords);
      if writeOk {
        file := KeywordFile.Present(text);
      }
    }

    /** `add_received`: the list changes by AddKeyword, and the file is saved only when a phrase was added. */
    method Add(input: string, writeOk: bool) returns (outcome: AddOutcome)
      modifies this
      ensures outcome == AddKeyword(old(keywords), input).outcome
      ensures keywords == AddKeyword(old(keywords), input).keywords
      ensures file == if outcome.Added? && writeOk then KeywordFile.Present(KeywordFile.SaveText(keywords)) else old(file)
      ensures WellFormed(old(keywords)) ==> WellFormed(keywords)
    {
      var product := Lower(Strip(input));
      if product == [] {
        return EmptyPhrase;
      }
      if product !in keywords {
        keywords := keywords + [product];
        Save(writeOk);
        outcome := Added(product);
      } else {
        outcome := AlreadyListed(product);
      }
      if WellFormed(old(keywords)) {
        AddKeepsWellFormed(old(keywords), input);
      }
    }

    /** `delete_received`: the list changes by RemoveKeyword, and the file is saved only when a phrase was removed. */
    method Remove(input: string, writeOk: bool) returns (outcome: RemoveOutcome)
      modifies this
      ensures outcome == RemoveKeyword(old(keywords), input).outcome
      ensures keywords == RemoveKeyword(old(keywords), input).keywords
      ensures file == if outcome.Removed? && writeOk then KeywordFile.Present(KeywordFile.SaveText(keywords)) else old(file)
      ensures WellFormed(old(keywords)) ==> WellFormed(keywords)
    {
      var product := Lower(Strip(input));
      if product in keywords {
        keywords := RemoveFirst(keywords, product);
        Save(writeOk);
        outcome := Removed(product);
      } else {
        outcome := NotListed(product);
      }
      if WellFormed(old(keywords)) {
        RemoveKeepsWellFormed(old(keywords), input);
      }
    }

    /**
     * The view `list_command` and `delete_command` show: nothing when the list
     * is empty (the "list is empty" reply), otherwise `sorted(KEYWORDS)`.
     */
    function SortedView(): (r: Option<seq<string>>)
      reads this
      ensures r.None? <==> keywords == []
      ensures r.Some? ==> IsSorted(r.value) && multiset(r.value) == multiset(keywords)
    {
      if keywords == [] then None else Some(Sort(keywords))
    }
  }
}
