/**
 * The handler run for every new chat message: drop the messages it must not
 * scan, scan a snapshot of the keyword list in order, and for the first
 * keyword that matches build one notification for the fixed recipient.
 */
module Pipeline {
  import opened Wrappers
  import opened Text
  import Matcher

  /** The title `getattr(event.chat, 'title', ...)` falls back to when the chat has none. */
  const PrivateChatTitle := "Chat Privado"

  /** What the handler reads of a new-message event. */
  datatype ChatEvent = ChatEvent(
    outgoing: bool,           // event.message.out
    senderId: Option<int>,    // event.sender_id
    chatId: int,              // event.chat_id
    chatTitle: Option<string>, // event.chat.title, when the chat has one
    messageId: int,           // event.message.id
    rawText: string)          // event.raw_text

  /** The bot's own id, the chat titles to ignore, and the user the notifications go to. */
  datatype Config = Config(botId: int, blacklist: seq<string>, recipient: int)

  /** One `send_message` call: recipient, text and parse mode. */
  datatype Notification = Notification(recipient: int, text: string, parseMode: string)

  function TitleOf(e: ChatEvent): string {
    e.chatTitle.GetOr(PrivateChatTitle)
  }

  /**
   * The filter: not sent by the user, not sent by the bot, not from a
   * blacklisted chat title, and with a non-empty raw text.
   */
  predicate Accepts(e: ChatEvent, cfg: Config) {
    !e.outgoing && e.senderId != Some(cfg.botId) && TitleOf(e) !in cfg.blacklist && e.rawText != []
  }

  // ---- decimal formatting of ids, as Python's str(int) ----

  function DigitChar(d: nat): char
    requires d < 10
  {
    ('0' as int + d) as char
  }

  predicate IsDigit(c: char) {
    '0' <= c <= '9'
  }

  predicate AllDigits(s: string) {
    forall i :: 0 <= i < |s| ==> IsDigit(s[i])
  }

  function NatToString(n: nat): (s: string)
    ensures s != [] && AllDigits(s)
  {
    if n < 10 then [DigitChar(n)] else NatToString(n / 10) + [DigitChar(n % 10)]
  }

  function IntToString(i: int): (s: string)
    ensures s != []
    ensures forall k :: 0 <= k < |s| ==> s[k] != '/'
  {
    if i < 0 then "-" + NatToString(-i) else NatToString(i)
  }

  function ParseNat(s: string): (n: nat)
    requires s != [] && AllDigits(s)
  {
    var d := s[|s| - 1] as int - '0' as int;
    if |s| == 1 then d else ParseNat(s[..|s| - 1]) * 10 + d
  }

  function ParseInt(s: string): Option<int> {
    if |s| > 1 && s[0] == '-' && AllDigits(s[1..]) then Some(-(ParseNat(s[1..]) as int))
    else if s != [] && AllDigits(s) then Some(ParseNat(s))
    else None
  }

  lemma {:induction false} ParseNatToString(n: nat)
    ensures ParseNat(NatToString(n)) == n
  {
    if n >= 10 {
      var s := NatToString(n / 10) + [DigitChar(n % 10)];
      assert s[..|s| - 1] == NatToString(n / 10);
      ParseNatToString(n / 10);
    }
  }

  /** Reading back a formatted id gives the id. */
  lemma ParseIntToString(i: int)
    ensures ParseInt(IntToString(i)) == Some(i)
  {
    if i < 0 {
      ParseNatToString(-i);
      assert IntToString(i)[1..] == NatToString(-i);
    } else {
      ParseNatToString(i);
    }
  }

  // ---- the message link ----

  const LinkPrefix := "https://t.me/c/"

  /** `f"https://t.me/c/{event.chat_id}/{event.message.id}"`. */
  function Link(chatId: int, messageId: int): string {
    LinkPrefix + IntToString(chatId) + "/" + IntToString(messageId)
  }

  function SlashIndex(s: string): (n: nat)
    ensures n <= |s|
    ensures forall k :: 0 <= k < n ==> s[k] != '/'
    ensures n < |s| ==> s[n] == '/'
  {
    if s == [] || s[0] == '/' then 0 else 1 + SlashIndex(s[1..])
  }

  /** Recovers the chat id and the message id from a message link. */
  function ParseLink(s: string): Option<(int, int)> {
    if |s| < |LinkPrefix| || s[..|LinkPrefix|] != LinkPrefix then None
    else
      var rest := s[|LinkPrefix|..];
      var n := SlashIndex(rest);
      if n == |rest| then None
      else
        match (ParseInt(rest[..n]), ParseInt(rest[n + 1..]))
        case (Some(c), Some(m)) => Some((c, m))
        case _ => None
  }

  lemma SlashIndexAt(a: string, b: string)
    requires forall k :: 0 <= k < |a| ==> a[k] != '/'
    ensures SlashIndex(a + "/" + b) == |a|
    decreases |a|
  {
    if a != [] {
      assert (a + "/" + b)[1..] == a[1..] + "/" + b;
      SlashIndexAt(a[1..], b);
    }
  }

  /** A link names its chat and its message: parsing it gives both back. */
  lemma ParseLinkOfLink(chatId: int, messageId: int)
    ensures ParseLink(Link(chatId, messageId)) == Some((chatId, messageId))
  {
    var a, b := IntToString(chatId), IntToString(messageId);
    var s := Link(chatId, messageId);
    assert s == LinkPrefix + (a + "/" + b);
    assert s[..|LinkPrefix|] == LinkPrefix;
    var rest := s[|LinkPrefix|..];
    assert rest == a + "/" + b;
    SlashIndexAt(a, b);
    assert rest[..|a|] == a && rest[|a| + 1..] == b;
    ParseIntToString(chatId);
    ParseIntToString(messageId);
  }

  /** Different messages get different links. */
  lemma LinkInjective(c1: int, m1: int, c2: int, m2: int)
    requires Link(c1, m1) == Link(c2, m2)
    ensures c1 == c2 && m1 == m2
  {
    ParseLinkOfLink(c1, m1);
    ParseLinkOfLink(c2, m2);
  }

  // ---- the notification ----

  /** `x` stands in `s` at index `i`. */
  predicate InfixAt(x: string, s: string, i: nat) {
    i + |x| <= |s| && s[i..i + |x|] == x
  }

  /** `x` stands somewhere in `s`. */
  ghost predicate IsInfix(x: string, s: string) {
    exists i: nat :: InfixAt(x, s, i)
  }

  lemma InfixAtEnd(a: string, x: string)
    ensures IsInfix(x, a + x)
  {
    assert (a + x)[|a|..|a| + |x|] == x;
    assert InfixAt(x, a + x, |a|);
  }

  lemma InfixExtend(x: string, s: string, b: string)
    requires IsInfix(x, s)
    ensures IsInfix(x, s + b)
  {
    var i: nat :| InfixAt(x, s, i);
    assert (s + b)[i..i + |x|] == s[i..i + |x|];
    assert InfixAt(x, s + b, i);
  }

  const Heading := "\U{1F525} **Promo\U{E7}\U{E3}o Encontrada!** \U{1F525}\n\n**Produto:** `"
  const BeforeTitle := "`\n**Grupo:** `"
  const BeforeText := "`\n\n**Texto Original:**\n_"
  const BeforeLink := "_\n\n\U{27A1}\U{FE0F} [Ver Mensagem]("

  /** The Markdown text of the alert, in the source's layout. */
  function Render(phrase: string, title: string, rawText: string, link: string): string {
    Heading + phrase + BeforeTitle + title + BeforeText + rawText + BeforeLink + link + ")"
  }

  /** Each of the four fields of a layout `h x1 g x2 o x3 v x4 z` stands in it. */
  lemma FieldsEmbedded(h: string, x1: string, g: string, x2: string, o: string, x3: string, v: string, x4: string, z: string)
    ensures var text := h + x1 + g + x2 + o + x3 + v + x4 + z;
      IsInfix(x1, text) && IsInfix(x2, text) && IsInfix(x3, text) && IsInfix(x4, text)
  {
    var p1 := h + x1;
    var p2 := p1 + g + x2;
    var p3 := p2 + o + x3;
    var p4 := p3 + v + x4;
    InfixAtEnd(h, x1);
    InfixExtend(x1, p1, g);
    InfixExtend(x1, p1 + g, x2);
    InfixAtEnd(p1 + g, x2);
    InfixExtend(x1, p2, o);
    InfixExtend(x2, p2, o);
    InfixExtend(x1, p2 + o, x3);
    InfixExtend(x2, p2 + o, x3);
    InfixAtEnd(p2 + o, x3);
    InfixExtend(x1, p3, v);
    InfixExtend(x2, p3, v);
    InfixExtend(x3, p3, v);
    InfixExtend(x1, p3 + v, x4);
    InfixExtend(x2, p3 + v, x4);
    InfixExtend(x3, p3 + v, x4);
    InfixAtEnd(p3 + v, x4);
    InfixExtend(x1, p4, z);
    InfixExtend(x2, p4, z);
    InfixExtend(x3, p4, z);
    InfixExtend(x4, p4, z);
  }

  /** The alert names the keyword, the chat, the original text and the link to the message. */
  lemma RenderEmbeds(phrase: string, title: string, rawText: string, link: string)
    ensures var text := Render(phrase, title, rawText, link);
      IsInfix(phrase, text) && IsInfix(title, text) && IsInfix(rawText, text) && IsInfix(link, text)
  {
    FieldsEmbedded(Heading, phrase, BeforeTitle, title, BeforeText, rawText, BeforeLink, link, ")");
  }

  /** The notification for event `e` matched by `phrase`. */
  function Format(e: ChatEvent, cfg: Config, phrase: string): (n: Notification)
    ensures n.recipient == cfg.recipient && n.parseMode == "Markdown"
    ensures IsInfix(phrase, n.text) && IsInfix(TitleOf(e), n.text) && IsInfix(e.rawText, n.text)
    ensures IsInfix(Link(e.chatId, e.messageId), n.text)
  {
    RenderEmbeds(phrase, TitleOf(e), e.rawText, Link(e.chatId, e.messageId));
    Notification(cfg.recipient, Render(phrase, TitleOf(e), e.rawText, Link(e.chatId, e.messageId)), "Markdown")
  }

  // ---- the scan ----

  /** No keyword before index `i` matches `text` under the boundary reading `mode`. */
  predicate NoEarlierMatch(mode: Matcher.Boundary, text: string, ks: seq<string>, i: nat)
    requires i <= |ks|
  {
    forall j :: 0 <= j < i ==> !Matcher.PhraseMatches(mode, text, ks[j])
  }

  /** The index of the first keyword of `ks` that matches `text`. */
  function FirstMatch(mode: Matcher.Boundary, text: string, ks: seq<string>): (r: Option<nat>)
    ensures r.Some? ==> r.value < |ks| && Matcher.PhraseMatches(mode, text, ks[r.value])
    ensures r.Some? ==> NoEarlierMatch(mode, text, ks, r.value)
    ensures r.None? ==> NoEarlierMatch(mode, text, ks, |ks|)
  {
    if ks == [] then None
    else if Matcher.PhraseMatches(mode, text, ks[0]) then Some(0)
    else
      match FirstMatch(mode, text, ks[1..])
      case None => None
      case Some(i) => Some(i + 1)
  }

  /** The first matching keyword is the one `FirstMatch` finds. */
  lemma FirstMatchAt(mode: Matcher.Boundary, text: string, ks: seq<string>, i: nat)
    requires i < |ks| && Matcher.PhraseMatches(mode, text, ks[i]) && NoEarlierMatch(mode, text, ks, i)
    ensures FirstMatch(mode, text, ks) == Some(i)
  {
  }

  /**
   * What the handler sends for event `e` when the keyword list is `ks` and
   * keywords are tested under `mode`: RegexWordBoundary is the test as the
   * source writes it, NonWordOrEdge the whole-word test it intends.
   */
  function Dispatch(mode: Matcher.Boundary, e: ChatEvent, cfg: Config, ks: seq<string>): Option<Notification> {
    if !Accepts(e, cfg) then None
    else
      match FirstMatch(mode, Lower(e.rawText), ks)
      case None => None
      case Some(i) => Some(Format(e, cfg, ks[i]))
  }

  /**
   * `telethon_event_handler`, testing each keyword with `\b` as written.
   * `keywords` is the snapshot `KEYWORDS[:]`; the result is the notification
   * handed to `send_message`, if any (whether the send succeeds does not
   * change what the handler does next).
   */
  method HandleEvent(e: ChatEvent, cfg: Config, keywords: seq<string>) returns (sent: Option<Notification>)
    ensures sent == Dispatch(Matcher.RegexWordBoundary, e, cfg, keywords)
  {
    if e.outgoing || e.senderId == Some(cfg.botId) {
      return None;
    }
    var chatTitle := TitleOf(e);
    if chatTitle in cfg.blacklist {
      return None;
    }
    if e.rawText == [] {
      return None;
    }
    var messageText := Lower(e.rawText);
    sent := None;
    var i := 0;
    while i < |keywords|
      invariant 0 <= i <= |keywords|
      invariant NoEarlierMatch(Matcher.RegexWordBoundary, messageText, keywords, i)
    {
      if Matcher.PhraseMatches(Matcher.RegexWordBoundary, messageText, keywords[i]) {
        FirstMatchAt(Matcher.RegexWordBoundary, messageText, keywords, i);
        sent := Some(Format(e, cfg, keywords[i]));
        break;
      }
      i := i + 1;
    }
  }

  /** The filter comes first: a rejected event produces nothing, whatever the keywords. */
  lemma RejectedSendsNothing(mode: Matcher.Boundary, e: ChatEvent, cfg: Config, ks: seq<string>)
    requires e.outgoing || e.senderId == Some(cfg.botId) || TitleOf(e) in cfg.blacklist || e.rawText == []
    ensures Dispatch(mode, e, cfg, ks) == None
  {
  }

  /**
   * At most one notification, and it is for the first keyword in list order
   * that matches the lower-cased text; there is one exactly when the event
   * passes the filter and some keyword matches.
   */
  lemma FirstMatchWins(mode: Matcher.Boundary, e: ChatEvent, cfg: Config, ks: seq<string>)
    ensures Dispatch(mode, e, cfg, ks).Some? <==>
      Accepts(e, cfg) && exists i :: 0 <= i < |ks| && Matcher.PhraseMatches(mode, Lower(e.rawText), ks[i])
    ensures forall i ::
      (Accepts(e, cfg) && 0 <= i < |ks| && Matcher.PhraseMatches(mode, Lower(e.rawText), ks[i])
       && NoEarlierMatch(mode, Lower(e.rawText), ks, i))
      ==> Dispatch(mode, e, cfg, ks) == Some(Format(e, cfg, ks[i]))
  {
    var text := Lower(e.rawText);
    forall i | Accepts(e, cfg) && 0 <= i < |ks| && Matcher.PhraseMatches(mode, text, ks[i]) && NoEarlierMatch(mode, text, ks, i)
      ensures Dispatch(mode, e, cfg, ks) == Some(Format(e, cfg, ks[i]))
    {
      FirstMatchAt(mode, text, ks, i);
    }
  }

  /** Keywords after the first matching one play no part. */
  lemma LaterKeywordsIrrelevant(mode: Matcher.Boundary, e: ChatEvent, cfg: Config, ks: seq<string>, more: seq<string>)
    requires FirstMatch(mode, Lower(e.rawText), ks).Some?
    ensures Dispatch(mode, e, cfg, ks + more) == Dispatch(mode, e, cfg, ks)
  {
    var text := Lower(e.rawText);
    var i := FirstMatch(mode, text, ks).value;
    assert (ks + more)[i] == ks[i];
    assert forall j :: 0 <= j < i ==> (ks + more)[j] == ks[j];
    FirstMatchAt(mode, text, ks + more, i);
  }

  /** Every word of every keyword is made of word characters only. */
  predicate PlainKeywords(ks: seq<string>) {
    forall i, w :: 0 <= i < |ks| && w in Split(ks[i]) ==> Matcher.IsPlainWord(w)
  }

  /**
   * When every word of every keyword is made of letters, digits and `_`, the
   * handler as written sends exactly what the whole-word test would.
   */
  lemma DispatchModesAgree(e: ChatEvent, cfg: Config, ks: seq<string>)
    requires PlainKeywords(ks)
    ensures Dispatch(Matcher.RegexWordBoundary, e, cfg, ks) == Dispatch(Matcher.NonWordOrEdge, e, cfg, ks)
  {
    var text := Lower(e.rawText);
    forall i | 0 <= i < |ks|
      ensures Matcher.PhraseMatches(Matcher.RegexWordBoundary, text, ks[i]) == Matcher.PhraseMatches(Matcher.NonWordOrEdge, text, ks[i])
    {
      Matcher.MatchesAsWrittenAgrees(text, ks[i]);
    }
    var r := FirstMatch(Matcher.RegexWordBoundary, text, ks);
    var q := FirstMatch(Matcher.NonWordOrEdge, text, ks);
    if r.Some? {
      FirstMatchAt(Matcher.NonWordOrEdge, text, ks, r.value);
    } else if q.Some? {
      FirstMatchAt(Matcher.RegexWordBoundary, text, ks, q.value);
    }
  }

  /**
   * The handler as written stays silent on a message that is exactly a
   * keyword ending in a symbol (such as `50%`), where the whole-word test
   * alerts.
   */
  lemma AsWrittenMissesSymbolKeyword(e: ChatEvent, cfg: Config, w: string)
    requires Accepts(e, cfg) && Lower(e.rawText) == w
    requires w != [] && NoSpace(w) && !Matcher.IsWordChar(w[|w| - 1])
    ensures Dispatch(Matcher.RegexWordBoundary, e, cfg, [w]) == None
    ensures Dispatch(Matcher.NonWordOrEdge, e, cfg, [w]) == Some(Format(e, cfg, w))
  {
    Matcher.KeywordEndingInSymbolMissed(w);
    assert [w][1..] == [];
  }

  /**
   * A text of blanks only passes the filter (the check is for the empty
   * string), yet no keyword the list can hold matches it.
   */
  lemma BlankTextPassesButMatchesNothing(mode: Matcher.Boundary, e: ChatEvent, cfg: Config, ks: seq<string>)
    requires e.rawText != [] && AllSpace(e.rawText)
    requires !e.outgoing && e.senderId != Some(cfg.botId) && TitleOf(e) !in cfg.blacklist
    requires forall i :: 0 <= i < |ks| ==> !AllSpace(ks[i])
    ensures Accepts(e, cfg)
    ensures Dispatch(mode, e, cfg, ks) == None
  {
    var text := Lower(e.rawText);
    assert AllSpace(text) by {
      assert forall c: char :: IsSpace(c) ==> LowerChar(c) == c;
    }
    forall i | 0 <= i < |ks| ensures !Matcher.PhraseMatches(mode, text, ks[i]) {
      Matcher.BlankTextMatchesNothing(mode, text, ks[i]);
    }
  }

  /** A chat without a title is reported, and filtered, under the name "Chat Privado". */
  lemma UntitledChatIsPrivate(mode: Matcher.Boundary, e: ChatEvent, cfg: Config, ks: seq<string>)
    requires e.chatTitle == None && PrivateChatTitle in cfg.blacklist
    ensures Dispatch(mode, e, cfg, ks) == None
  {
  }
}
