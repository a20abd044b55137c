# Promo watcher: a Dafny model of the keyword store, matcher and message handler

The bot keeps a list of keyword phrases (`KEYWORDS`). It is edited through chat
commands and saved to `keywords.txt`. A Telegram user client watches every
incoming chat message. When a message matches a phrase, the bot sends one
Markdown alert to a fixed user. This project models three parts of `main.py`
and proves what they guarantee:

- **Keyword store** (`keywordstore.dfy`, `keywordfile.dfy`):
  - `add_received` and `delete_received` normalise the typed text with
    `strip().lower()`. Add rejects blank input and phrases already listed,
    and appends otherwise. Delete removes the first occurrence when the
    phrase is listed.
  - The pure steps are `AddKeyword` and `RemoveKeyword`. The class `Store`
    holds the list and the file. Its methods apply a step and save after a
    change.
  - The sorted view behind `/listar` and `/deletar` is modelled.
  - The file format of `save_keywords` / `load_keywords` is modelled. Loading
    uses Python's universal-newline reading, so `\n`, `\r\n` and `\r` each
    end a line.
- **Matcher** (`matcher.dfy`): a phrase matches the lower-cased message when
  every word of `phrase.split()` occurs in it with a `\b` on both sides.
  The module models that regular-expression test as written, and also the
  whole-word test it is meant to be. It proves where the two agree and where
  they differ.
- **Message handler** (`pipeline.dfy`):
  - the filter (outgoing messages, the bot's own messages, blacklisted chat
    titles, empty text);
  - the in-order scan of the keyword snapshot, which stops at the first match;
  - the alert text and the message link `https://t.me/c/{chat_id}/{message_id}`.

The Python string operations the bot relies on live in `text.dfy`: `isspace`,
`strip`, `lower` and `split`. They follow CPython's rules for the characters
they cover. `sorting.dfy` gives `sorted()` on strings, in code-point order.
`wrappers.dfy` holds `Option`.

## Two behaviours of the code to be aware of

- **Whitespace-only messages.** The handler's check `not event.raw_text`
  (main.py:199) rejects only the empty string. A message made only of
  whitespace passes the filter. It still triggers nothing, because every
  listed phrase has a word (`Pipeline.BlankTextPassesButMatchesNothing`).
- **Multi-line phrases break the round trip.** Add stores whatever one
  message holds (main.py:113-119), and a message may span several lines.
  Such a phrase is saved as several lines (main.py:76-77), and the file is
  read back line by line (main.py:65). So it comes back as several phrases
  (`KeywordFile.MultiLinePhraseSplits`). Load after save gives the list back
  only when no phrase contains a line break (`KeywordFile.LoadSave`,
  `KeywordStore.FileReloadsList`).

## Model

| member | source | states |
|---|---|---|
| Text.IsSpace | main.py:113 | the characters of `str.isspace`, used by StripIsSlice, SplitSkipsBlank and the other Text lemmas; U+0009..U+000D, U+001C..U+0020, U+0085, U+00A0 and the Unicode space separators |
| Text.Strip | main.py:113 | `strip()` leaves no whitespace at either end; the result is empty exactly when the input is all whitespace |
| Text.StripIsSlice | main.py:113 | the stripped text is a slice of the input, and only whitespace is cut off on either side |
| Text.StripIdempotent | main.py:113 | stripping twice is stripping once |
| Text.LowerChar | main.py:113 | `lower()` on one character: ASCII and Latin-1 capitals (not U+00D7) move up by 32, every other character is kept; LowerIdempotent and LowerKeepsStripped state its properties |
| Text.Lower | main.py:113 | `lower()` maps every character in place and keeps the length |
| Text.LowerIdempotent | main.py:113 | lower-casing twice is lower-casing once |
| Text.LowerKeepsStripped | main.py:113 | lower-casing keeps a stripped text stripped and does not touch whitespace |
| Text.Split | main.py:210 | `split()` yields only non-empty words without whitespace |
| Text.SplitBlank | main.py:210 | a blank text has no words |
| Text.SplitNotBlank | main.py:210 | a text that is not blank has at least one word |
| Text.SplitSkipsBlank | main.py:210 | whitespace of any kind and length before a text does not change its words |
| Text.SplitWordThenBlank | main.py:210 | a word followed by any non-empty run of whitespace is the first word, and splitting goes on after the run |
| Text.SplitJoin | main.py:210 | splitting words joined by single spaces gives back exactly those words, in order |
| Sorting.StrLe | main.py:137 | Python's `<=` on `str`: code point by code point, a proper prefix first; the lemmas below prove it a total order |
| Sorting.StrLeTotal | main.py:137 | the string order is total |
| Sorting.StrLeAntisymmetric | main.py:137 | the string order is antisymmetric |
| Sorting.StrLeTransitive | main.py:137 | the string order is transitive |
| Sorting.SortedAllPairs | main.py:137 | in a sorted list every earlier string is at most every later one |
| Sorting.Insert | main.py:137 | insertion into a sorted list keeps it sorted and adds exactly one element |
| Sorting.Sort | main.py:137 | `sorted()` returns an ordered permutation of its input |
| KeywordFile.Lines | main.py:64-65 | a file's text splits into at least one piece, and no piece holds a line break |
| KeywordFile.LinesOfLine | main.py:64-65 | a text without a line break is one line |
| KeywordFile.LinesAfterBreak | main.py:64-65 | `\n`, `\r\n` and a lone `\r` each end a line, and reading goes on after the terminator |
| KeywordFile.KeepNonBlank | main.py:65 | the comprehension keeps at most one stripped, non-empty phrase per line |
| KeywordFile.KeepNonBlankOne | main.py:65 | one line gives its stripped text, or nothing when it is blank |
| KeywordFile.KeepNonBlankAppend | main.py:65 | the comprehension works line by line, so it distributes over concatenation |
| KeywordFile.LoadLine | main.py:59-70 | loading any file, whatever its line endings, gives the stripped first line unless it is blank, followed by what the rest of the file loads to |
| KeywordFile.Load | main.py:59-70 | a missing or unreadable file gives no phrases; every phrase loaded is non-empty, stripped and on one line |
| KeywordFile.SaveText | main.py:76-77 | the text a save writes: each phrase followed by `\n`; LoadSave and LinesOfSaveText read it back |
| KeywordFile.WriteLines | main.py:72-77 | the save loop writes each phrase followed by `\n`, in list order |
| KeywordFile.LinesOfSaveText | main.py:76-77 | reading a saved file gives the saved phrases plus an empty final piece |
| KeywordFile.KeepNonBlankStorable | main.py:65 | the comprehension keeps storable phrases as they are and drops the final empty piece |
| KeywordFile.LoadSave | main.py:59-80 | loading what was saved gives back the same phrases in the same order, when each is non-empty, stripped and on one line |
| KeywordFile.MultiLinePhraseSplits | main.py:59-80 | a phrase holding a line break reloads as two phrases |
| KeywordStore.Normalize | main.py:113 | the normal form is stripped and lower-case, and is empty exactly when the input is blank |
| KeywordStore.NormalizeIdempotent | main.py:113 | normalising a normal form changes nothing |
| KeywordStore.AddKeyword | main.py:111-129 | blank input gives the empty-phrase reply; a listed normal form gives "already listed"; in both cases the list is unchanged; otherwise the normal form was new and is appended at the end, and the earlier phrases keep their places |
| KeywordStore.IndexOf | main.py:161 | the index of the first occurrence of the phrase |
| KeywordStore.RemoveFirst | main.py:161 | `list.remove` drops exactly one copy of the phrase |
| KeywordStore.RemoveKeyword | main.py:157-173 | the phrase is removed exactly when its normal form is listed; otherwise the list is unchanged |
| KeywordStore.RemoveFirstKeepsOrder | main.py:161 | the other phrases keep their relative order |
| KeywordStore.RemoveFirstNoDuplicates | main.py:160-161 | in a list without duplicates the removed phrase is gone and nothing else is |
| KeywordStore.AddKeepsWellFormed | main.py:113-120 | add keeps the list free of duplicates and of empty phrases |
| KeywordStore.RemoveKeepsWellFormed | main.py:159-162 | delete keeps the list free of duplicates and of empty phrases |
| KeywordStore.ApplyAllKeepsWellFormed | main.py:111-173 | every run of add and delete commands keeps that invariant |
| KeywordStore.AddTwice | main.py:118-128 | adding the same text twice lists it once, with "already listed" the second time |
| KeywordStore.AddStoresNormalForm | main.py:113-119 | the appended phrase is the stripped, lower-cased input, and it is its own normal form |
| KeywordStore.ApplyAllKeepsStorable | main.py:111-173 | one-line commands keep every phrase storable |
| KeywordStore.FileReloadsList | main.py:59-83 | after any run of one-line commands, the saved file reloads as the list in memory |
| KeywordStore.Store.Open | main.py:83 | the list starts as what the file loads to |
| KeywordStore.Store.Save | main.py:72-80 | the file now holds the list's text, or is unchanged when writing fails |
| KeywordStore.Store.Add | main.py:111-129 | the list and the reply are those of AddKeyword; the file is saved only after an append; the invariant is kept |
| KeywordStore.Store.Remove | main.py:157-173 | the list and the reply are those of RemoveKeyword; the file is saved only after a removal; the invariant is kept |
| KeywordStore.Store.SortedView | main.py:131-155 | nothing when the list is empty, otherwise an ordered permutation of the list |
| Matcher.Find | main.py:213 | the search returns the leftmost whole-word occurrence at or after the start, or reports that there is none |
| Matcher.Occurs | main.py:213 | a word is found exactly when some index holds it with both boundaries |
| Matcher.OccursAsWholeWord | main.py:213 | a word is found exactly when it stands between a non-word character or an edge on each side |
| Matcher.AllOccur | main.py:213 | `all(...)` holds exactly when every word is found |
| Matcher.IsWordChar | main.py:213 | the `\w` class within Latin-1: `_` and the characters `str.isalnum` accepts; BoundariesAgree and the discrepancy lemmas use it |
| Matcher.PhraseMatches | main.py:210-213 | `all(search(word) ...)` over `phrase.split()` under a chosen boundary reading; SameWordsSameMatch, WordOrderIrrelevant and BlankTextMatchesNothing hold for both readings |
| Matcher.MatchesAsWritten | main.py:210-213 | the `\b` test as written holds exactly when every word occurs with a `\b` on both sides |
| Matcher.Matches | main.py:210-213 | the intended whole-word test; MatchesMeans states what it means and MatchesAsWrittenAgrees relates it to the test as written |
| Matcher.MatchesMeans | main.py:210-213 | a phrase matches exactly when every word of its `split()` is a whole word of the text |
| Matcher.BoundariesAgree | main.py:213 | for a word that begins and ends with a word character, `\b` and the whole-word rule agree at every index |
| Matcher.MatchesAsWrittenAgrees | main.py:210-213 | for phrases made of plain words, the source's test is the intended one |
| Matcher.AsWrittenNeedsWordCharAfter | main.py:213 | under `\b`, a word that ends in a symbol is found only before a word character |
| Matcher.KeywordEndingInSymbolMissed | main.py:210-213 | a one-word phrase ending in a symbol does not match that very word under `\b`, but matches under the whole-word rule |
| Matcher.PercentKeywordMissed | main.py:213 | the phrase `50%` does not match the message `50%` as written |
| Matcher.SymbolBeforeWordCharFound | main.py:210-213 | a phrase that starts with a word character and ends in a symbol matches under `\b` when a word character follows it, although it is no whole word there |
| Matcher.DollarKeywordFoundAsWritten | main.py:213 | the phrase `r$` matches the message `r$3` as written, but not under the whole-word rule |
| Matcher.SameWordsSameMatch | main.py:210-213 | under either reading of the word test, the `\b` one included, phrases with the same set of words match the same texts, in whatever order and repetition |
| Matcher.WordOrderIrrelevant | main.py:210-213 | the two-word case of the above, under either reading: swapping the words of a phrase does not change the match |
| Matcher.BlankTextMatchesNothing | main.py:210-213 | a blank text matches no phrase that has a word, under either reading of `\b` |
| Pipeline.TitleOf | main.py:192 | the chat's title, or "Chat Privado" when it has none; UntitledChatIsPrivate uses it |
| Pipeline.Accepts | main.py:189-200 | the filter: not outgoing, not from the bot, not in a blacklisted chat, and with non-empty raw text; RejectedSendsNothing and FirstMatchWins state its effect |
| Pipeline.Link | main.py:222 | `https://t.me/c/{chat_id}/{message_id}`; ParseLinkOfLink and LinkInjective prove it identifies the message |
| Pipeline.IntToString | main.py:222 | a formatted id is not empty and holds no `/` |
| Pipeline.ParseIntToString | main.py:222 | the decimal id reads back as the id |
| Pipeline.ParseLinkOfLink | main.py:222 | a message link gives back its chat id and message id |
| Pipeline.LinkInjective | main.py:222 | different messages get different links |
| Pipeline.Render | main.py:224-230 | the alert's Markdown layout, piece for piece; RenderEmbeds proves the four fields appear in it |
| Pipeline.RenderEmbeds | main.py:224-230 | the alert text contains the phrase, the chat title, the raw text and the link |
| Pipeline.Format | main.py:222-235 | the alert goes to the fixed recipient in Markdown and embeds the phrase, the title, the raw text and the link |
| Pipeline.FirstMatch | main.py:207-219 | for either reading of the word test, the index found matches and no earlier keyword does; with no index, no keyword matches |
| Pipeline.FirstMatchAt | main.py:207-240 | the first matching keyword is the one the scan stops at |
| Pipeline.HandleEvent | main.py:186-240 | the handler, testing keywords with `\b` as written, sends exactly what Dispatch describes for that test: nothing when filtered out, else an alert for the first matching keyword |
| Pipeline.Dispatch | main.py:186-240 | the handler's result for a boundary reading: nothing when filtered out or when no keyword matches, else the alert for the first match; HandleEvent equals it under `\b`, and FirstMatchWins and DispatchModesAgree characterise it |
| Pipeline.RejectedSendsNothing | main.py:189-200 | an outgoing message, the bot's own message, a blacklisted chat or an empty text produce nothing, whatever the keywords |
| Pipeline.FirstMatchWins | main.py:189-240 | an alert is produced exactly when the event passes the filter and some keyword matches, and it is for the first such keyword |
| Pipeline.LaterKeywordsIrrelevant | main.py:207-240 | once some keyword matches, keywords appended after the list play no part |
| Pipeline.DispatchModesAgree | main.py:207-219 | when every word of every keyword is made of letters, digits and `_`, the handler as written sends exactly what the whole-word test would |
| Pipeline.AsWrittenMissesSymbolKeyword | main.py:207-240 | a message that is exactly a keyword ending in a symbol gets no alert as written, and an alert under the whole-word test |
| Pipeline.BlankTextPassesButMatchesNothing | main.py:199-213 | a whitespace-only text passes the filter but matches no listed phrase |
| Pipeline.UntitledChatIsPrivate | main.py:192-197 | a chat without a title is filtered under the name "Chat Privado" |

## Left out

- Telethon login, the two-factor prompt, event registration and the bot's `Application` and `ConversationHandler` wiring (main.py:184, 244-303). These are network and interactive I/O. The conversation states are the same kind of I/O: `start_command`, `add_command` and `cancel_command` only reply and return a state.
- Opening, reading and writing the file. The file is a `Storage` value. A failed write is a flag that leaves the file as it was. A write that truncates the file and then fails part-way is not modelled.
- Reading the environment, the credentials check and `sys.exit` (main.py:26-45), and all logging: configuration and side output.
- The asyncio interleaving of the command handlers with the message handler. Each handler runs as one step, and the handler gets the snapshot `KEYWORDS[:]` as a sequence argument.
- Text.Lower: covers ASCII and the Latin-1 capitals only, not the whole Unicode case mapping of `str.lower()`.
- Matcher.IsWordChar: covers `_` and the Latin-1 characters `str.isalnum` accepts only, not the whole Unicode `\w` class.
- The `re.error` branch (main.py:215-217). Escaped literal words cannot raise it.
- The outcome of `send_message` (main.py:232-238). The handler stops after the first match whether or not the send succeeds.
- The wording of replies and the keyboards. The replies are the outcome datatypes, and the keyboard is the sorted view.
- A chat whose `title` attribute exists but is `None`. The model distinguishes only "has a title" from "has none".
- Text translation of `\n` on Windows. Saving writes `\n`, while Python on Windows writes `\r\n`; loading already reads `\r\n` as one line end (`KeywordFile.LinesAfterBreak`), so only the bytes written differ.

## Findings

| source | as written | input that shows it | evidently intended | confidence | as-written member | corrected member |
|---|---|---|---|---|---|---|
| main.py:213 | each word is searched as `\b` + `re.escape(word)` + `\b`, and `\b` needs a word character on exactly one side | the phrase `50%` and the message `50%`: after `%` comes the end of the text, and `\b` finds no word character next to it | each word is found wherever it stands between non-word characters or the text's edges | not executed | Matcher.KeywordEndingInSymbolMissed | Matcher.MatchesMeans |
| main.py:213 | the same pattern; `\b` holds between a symbol and a following word character | the phrase `r$` and the message `r$3`: `\b` holds between `$` and `3`, so the phrase matches although `r$` is followed by a word character | a word followed by a word character is not a whole word and is not found | not executed | Matcher.DollarKeywordFoundAsWritten | Matcher.MatchesMeans |

`Pipeline.HandleEvent` models the handler as written (`\b`).
`Pipeline.Dispatch` takes the reading of the word test as a parameter.
`Dispatch(NonWordOrEdge, ...)` is the handler with the corrected test,
`Matcher.Matches`, and the scan lemmas hold for both readings.
For keywords made of letters, digits and `_`, the two readings agree
(`Matcher.MatchesAsWrittenAgrees`, `Pipeline.DispatchModesAgree`).
For other keywords they can differ in both directions
(`Pipeline.AsWrittenMissesSymbolKeyword`, `Matcher.DollarKeywordFoundAsWritten`).
