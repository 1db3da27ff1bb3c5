/** The bot's routing pipeline as pure functions of the bot's configuration
    and one inbound message: the relevance filter, the mention stripping and
    tokenising of the default router, the command registry, the reply texts
    of the three handlers and the rule that picks the reply's destination. */
module Routing {
  import opened Text

  datatype Option<T> = None | Some(value: T)

  /** The `type` field of a message: anything that is not `private` is
      answered as a stream message. */
  datatype MessageType = StreamType | PrivateType

  /** An inbound message event; `subject` and `stream` may be absent. */
  datatype Message = Message(
    senderShortName: string,
    senderEmail: string,
    content: string,
    kind: MessageType,
    subject: Option<string>,
    stream: Option<string>)

  /** An outbound message handed to the gateway. */
  datatype Envelope =
    | StreamEnvelope(to: string, topic: Option<string>, content: string)
    | PrivateEnvelope(to: string, content: string)

  /** What the bot holds from construction on: its name, its default stream
      and its command registry, in registration order. */
  datatype BotConfig = BotConfig(name: string, stream: string, commands: seq<(string, Command)>)

  /** The registered command handlers. */
  datatype Command = Hello | Help

  /** The result of handling one message: nothing sent, one envelope sent,
      or the `IndexError` raised when no command token is left. */
  datatype Outcome = Ignored | Sent(envelope: Envelope) | IndexError

  // ---------------------------------------------------------------------
  // Identity

  /** The short name the gateway gives the bot's own messages. */
  function ShortName(name: string): string {
    name + "-bot"
  }

  /** The mention token `@**name**`. */
  function FormatMention(name: string): string {
    "@**" + name + "**"
  }

  /** The name inside a mention token, if `s` is one. */
  function ParseMention(s: string): Option<string> {
    if |s| >= 5 && s[..3] == "@**" && s[|s| - 2..] == "**" then Some(s[3..|s| - 2])
    else None
  }

  /** The name can be read back from its mention, so distinct names have
      distinct mentions. */
  lemma MentionRoundTrip(name: string)
    ensures ParseMention(FormatMention(name)) == Some(name)
    ensures |FormatMention(name)| == |name| + 5
  {
    var m := FormatMention(name);
    assert m[..3] == "@**" && m[|m| - 2..] == "**" && m[3..|m| - 2] == name;
  }

  // ---------------------------------------------------------------------
  // Relevance filter

  predicate IsSelfSent(selfShortName: string, m: Message) {
    m.senderShortName == selfShortName
  }

  predicate IsSelfMention(selfMention: string, m: Message) {
    Contains(m.content, selfMention)
  }

  predicate IsPrivateMessage(m: Message) {
    m.kind == PrivateType
  }

  predicate IsRelevant(cfg: BotConfig, m: Message) {
    !IsSelfSent(ShortName(cfg.name), m) &&
    (IsSelfMention(FormatMention(cfg.name), m) || IsPrivateMessage(m))
  }

  // ---------------------------------------------------------------------
  // Default router

  function StripSelfMention(selfMention: string, content: string): string {
    RemoveAll(content, selfMention)
  }

  /** The non-empty space-separated tokens of the content once every mention
      of the bot is removed. */
  function CommandTokens(selfMention: string, content: string): seq<string> {
    NonEmpty(Split(StripSelfMention(selfMention, content), ' '))
  }

  /** The registry the bot builds when it is constructed, in registration
      order. */
  const Entries: seq<(string, Command)> := [("hello", Hello), ("help", Help)]

  /** Each handler's documentation string. */
  function Doc(c: Command): string {
    match c
    case Hello => "Say hello."
    case Help => "Get help about recognized commands."
  }

  /** No name is registered twice, as in a dictionary. */
  ghost predicate UniqueNames(commands: seq<(string, Command)>) {
    forall i, j :: 0 <= i < j < |commands| ==> commands[i].0 != commands[j].0
  }

  /** The handler registered under `token`, if any. */
  function Lookup(commands: seq<(string, Command)>, token: string): Option<Command>
    decreases |commands|
  {
    if |commands| == 0 then None
    else if commands[0].0 == token then Some(commands[0].1)
    else Lookup(commands[1..], token)
  }

  /** A lookup finds exactly the registered names, and with unique names it
      finds the handler registered under that name. */
  lemma {:induction false} LookupFinds(commands: seq<(string, Command)>, token: string)
    ensures Lookup(commands, token).Some? <==> exists i :: 0 <= i < |commands| && commands[i].0 == token
    ensures UniqueNames(commands) ==> forall i :: 0 <= i < |commands| && commands[i].0 == token ==>
      Lookup(commands, token) == Some(commands[i].1)
    decreases |commands|
  {
    if |commands| > 0 {
      LookupFinds(commands[1..], token);
      var tail := commands[1..];
      if commands[0].0 != token {
        if i :| 0 <= i < |tail| && tail[i].0 == token {
          assert commands[i + 1].0 == token;
        }
        if i :| 0 <= i < |commands| && commands[i].0 == token {
          assert tail[i - 1].0 == token;
        }
      }
      if UniqueNames(commands) {
        assert UniqueNames(tail) by {
          forall i, j | 0 <= i < j < |tail| ensures tail[i].0 != tail[j].0 {
            assert tail[i] == commands[i + 1] && tail[j] == commands[j + 1];
          }
        }
        forall i | 0 <= i < |commands| && commands[i].0 == token
          ensures Lookup(commands, token) == Some(commands[i].1)
        {
          if i > 0 {
            assert commands[0].0 != commands[i].0;
            assert tail[i - 1] == commands[i];
          }
        }
      }
    }
  }

  /** The bot's registry: `hello` and `help`, each once, and nothing else. */
  lemma DefaultRegistry(token: string)
    ensures UniqueNames(Entries) && NamesSingleLine(Entries)
    ensures token == "hello" ==> Lookup(Entries, token) == Some(Hello)
    ensures token == "help" ==> Lookup(Entries, token) == Some(Help)
    ensures token != "hello" && token != "help" ==> Lookup(Entries, token) == None
  {
    assert Entries[0].0 == "hello" && Entries[1].0 == "help";
    assert Entries[1..][1..] == [];
  }

  /** The reply of the unknown-command handler. */
  function UnknownCommandReply(content: string): string {
    UnknownPrefix + content + UnknownSuffix
  }

  const UnknownPrefix: string := "I did not understand the message:\n```quote\n"
  const UnknownSuffix: string := "\n```\nFor a list of recognized commands, send `help`."

  /** The text quoted by an unknown-command reply, if `r` is one. */
  function QuotedContent(r: string): Option<string> {
    var p, q := |UnknownPrefix|, |UnknownSuffix|;
    if |r| >= p + q && r[..p] == UnknownPrefix && r[|r| - q..] == UnknownSuffix
    then Some(r[p..|r| - q])
    else None
  }

  /** The unknown-command reply quotes the message content verbatim, so it
      can be read back, and ends by pointing at `help`. */
  lemma UnknownReplyQuotesContent(content: string)
    ensures QuotedContent(UnknownCommandReply(content)) == Some(content)
    ensures var r := UnknownCommandReply(content);
      |r| >= 12 && r[|r| - 12..] == "send `help`."
  {
    var r := UnknownCommandReply(content);
    var p, q := |UnknownPrefix|, |UnknownSuffix|;
    assert r[..p] == UnknownPrefix;
    assert r[|r| - q..] == UnknownSuffix;
    assert r[p..|r| - q] == content;
    assert r[|r| - 12..] == UnknownSuffix[q - 12..];
  }

  /** The reply of the `hello` handler. */
  function HelloReply(m: Message): string {
    "Hi " + FormatMention(m.senderShortName) + " :wave:"
  }

  /** The name a greeting mentions, if `r` is one. */
  function GreetedName(r: string): Option<string> {
    if |r| >= 10 && r[..3] == "Hi " && r[|r| - 7..] == " :wave:" then ParseMention(r[3..|r| - 7])
    else None
  }

  /** The greeting mentions exactly the sender. */
  lemma HelloGreetsSender(m: Message)
    ensures GreetedName(HelloReply(m)) == Some(m.senderShortName)
  {
    var r := HelloReply(m);
    assert r[..3] == "Hi " && r[|r| - 7..] == " :wave:";
    assert r[3..|r| - 7] == FormatMention(m.senderShortName);
    MentionRoundTrip(m.senderShortName);
  }

  // The help table's fixed lines; the header and the footer are these
  // lines joined by newlines.
  const HelpTitle: string := "**Supported commands**"
  const HelpColumns: string := "Command|Description"
  const HelpRule: string := "-------|-----------"
  const HelpHint: string := "Send `help {command}` for more information."
  const HelpHeader: string := HelpTitle + "\n" + "\n" + HelpColumns + "\n" + HelpRule
  const HelpFooter: string := "\n" + HelpHint

  /** The first line of a documentation string. */
  function FirstLine(doc: string): string {
    Before(doc, '\n')
  }

  /** One row of the help table. */
  function HelpRow(e: (string, Command)): string {
    e.0 + "|" + FirstLine(Doc(e.1))
  }

  /** The rows of the given registry entries, in order. */
  function HelpRows(es: seq<(string, Command)>): (rows: seq<string>)
    ensures |rows| == |es|
    decreases |es|
  {
    if |es| == 0 then [] else HelpRows(es[..|es| - 1]) + [HelpRow(es[|es| - 1])]
  }

  /** One more entry adds its row at the end. */
  lemma HelpRowsExtend(es: seq<(string, Command)>, i: int)
    requires 0 <= i < |es|
    ensures HelpRows(es[..i + 1]) == HelpRows(es[..i]) + [HelpRow(es[i])]
  {
    assert es[..i + 1][..i] == es[..i];
  }

  /** The help table of some registry entries: header, one row per entry,
      footer. */
  function HelpTableOf(es: seq<(string, Command)>): string {
    Join([HelpHeader] + HelpRows(es) + [HelpFooter], '\n')
  }

  /** The help table of the bot's registry. */
  function HelpTable(): string {
    HelpTableOf(Entries)
  }

  /** The reply of the `help` handler over the registry `commands`. */
  function HelpReply(commands: seq<(string, Command)>, args: seq<string>): string {
    if |args| > 0 && Lookup(commands, args[0]).Some? then
      "*" + args[0] + "*: " + Doc(Lookup(commands, args[0]).value)
    else HelpTableOf(commands)
  }

  const HelpHeaderLines: seq<string> := [HelpTitle, "", HelpColumns, HelpRule]
  const HelpFooterLines: seq<string> := ["", HelpHint]

  /** The header and footer strings are their lines joined. */
  lemma HeaderFooterLines()
    ensures HelpHeader == Join(HelpHeaderLines, '\n')
    ensures HelpFooter == Join(HelpFooterLines, '\n')
  {
    var a := [HelpRule];
    var b := [HelpColumns] + a;
    var c := [""] + b;
    JoinCons(HelpColumns, a, '\n');
    JoinCons("", b, '\n');
    JoinCons(HelpTitle, c, '\n');
    assert HelpHeaderLines == [HelpTitle] + c;
    assert "" + "\n" + Join(b, '\n') == "\n" + Join(b, '\n');
    JoinCons("", [HelpHint], '\n');
    assert HelpFooterLines == [""] + [HelpHint];
    assert "" + "\n" + HelpHint == "\n" + HelpHint;
  }

  /** Every documentation string is a single line. */
  lemma DocSingleLine(c: Command)
    ensures '\n' !in Doc(c)
  {
    match c
    case Hello =>
    case Help =>
  }

  /** Each row is `name|documentation`, since the documentation is a single
      line; a row of a name without a newline holds none. */
  lemma HelpRowDescribes(e: (string, Command))
    ensures HelpRow(e) == e.0 + "|" + Doc(e.1)
    ensures '\n' !in e.0 ==> '\n' !in HelpRow(e)
  {
    DocSingleLine(e.1);
    BeforeNoSeparator(Doc(e.1), '\n');
  }

  /** The rows follow the entries one for one. */
  lemma {:induction false} HelpRowsAt(es: seq<(string, Command)>)
    ensures forall i :: 0 <= i < |es| ==> HelpRows(es)[i] == HelpRow(es[i])
    decreases |es|
  {
    if |es| > 0 {
      HelpRowsAt(es[..|es| - 1]);
    }
  }

  /** No registered name holds a newline. */
  ghost predicate NamesSingleLine(es: seq<(string, Command)>) {
    forall i :: 0 <= i < |es| ==> '\n' !in es[i].0
  }

  /** Each row describes its entry, and none holds a newline. */
  lemma HelpRowsDescribe(es: seq<(string, Command)>)
    requires NamesSingleLine(es)
    ensures forall i :: 0 <= i < |es| ==> HelpRows(es)[i] == es[i].0 + "|" + Doc(es[i].1)
    ensures forall i :: 0 <= i < |es| ==> '\n' !in HelpRows(es)[i]
  {
    HelpRowsAt(es);
    forall i | 0 <= i < |es|
      ensures HelpRows(es)[i] == es[i].0 + "|" + Doc(es[i].1)
      ensures '\n' !in HelpRows(es)[i]
    {
      HelpRowDescribes(es[i]);
    }
  }

  /** Splitting a table joined from a header, rows and a footer gives the
      header's lines, the rows and the footer's lines. */
  lemma {:induction false} TableLines(h: string, f: string, header: seq<string>, rows: seq<string>, footer: seq<string>)
    requires h == Join(header, '\n') && f == Join(footer, '\n')
    requires |header| > 0 && |footer| > 0
    requires forall i :: 0 <= i < |header| ==> '\n' !in header[i]
    requires forall i :: 0 <= i < |rows| ==> '\n' !in rows[i]
    requires forall i :: 0 <= i < |footer| ==> '\n' !in footer[i]
    ensures Split(Join([h] + rows + [f], '\n'), '\n') == header + rows + footer
  {
    JoinAppend([h], rows + [f], '\n');
    JoinAppend(header, rows + footer, '\n');
    if |rows| > 0 {
      JoinAppend(rows, [f], '\n');
      JoinAppend(rows, footer, '\n');
    } else {
      assert rows + [f] == [f] && rows + footer == footer;
    }
    assert [h] + rows + [f] == [h] + (rows + [f]);
    var all := header + rows + footer;
    assert all == header + (rows + footer);
    assert Join([h] + rows + [f], '\n') == Join(all, '\n');
    forall i | 0 <= i < |all| ensures '\n' !in all[i] {
      if i < |header| {
        assert all[i] == header[i];
      } else if i < |header| + |rows| {
        assert all[i] == rows[i - |header|];
      } else {
        assert all[i] == footer[i - |header| - |rows|];
      }
    }
    SplitJoin(all, '\n');
  }

  // One lemma per fixed line: each is a check over a constant, and proving
  // them one at a time keeps every proof small.

  lemma TitleSingleLine()
    ensures '\n' !in HelpTitle
  {
  }

  lemma ColumnsSingleLine()
    ensures '\n' !in HelpColumns && '\n' !in HelpRule
  {
  }

  lemma HintSingleLine()
    ensures '\n' !in HelpHint
  {
  }

  /** None of the table's fixed lines holds a newline. */
  lemma FixedLinesSingle()
    ensures forall i :: 0 <= i < |HelpHeaderLines| ==> '\n' !in HelpHeaderLines[i]
    ensures forall i :: 0 <= i < |HelpFooterLines| ==> '\n' !in HelpFooterLines[i]
  {
    TitleSingleLine();
    ColumnsSingleLine();
    HintSingleLine();
  }

  /** The layout of the lines of a help table over `es`: the header lines,
      `name|documentation` for each entry in order, the footer lines. */
  ghost predicate TableLayout(es: seq<(string, Command)>, lines: seq<string>) {
    var n := |HelpHeaderLines|;
    |lines| == n + |es| + |HelpFooterLines| &&
    lines[..n] == HelpHeaderLines &&
    lines[n + |es|..] == HelpFooterLines &&
    forall i :: 0 <= i < |es| ==> lines[n + i] == es[i].0 + "|" + Doc(es[i].1)
  }

  lemma ThreeParts(lines: seq<string>, h: seq<string>, r: seq<string>, f: seq<string>)
    requires lines == h + r + f
    ensures |lines| == |h| + |r| + |f|
    ensures lines[..|h|] == h && lines[|h| + |r|..] == f
    ensures forall i :: 0 <= i < |r| ==> lines[|h| + i] == r[i]
  {
  }

  /** The help table of entries with single-line names splits into its
      header lines, one row per entry and its footer lines. */
  lemma HelpTableLayout(es: seq<(string, Command)>)
    requires NamesSingleLine(es)
    ensures TableLayout(es, Split(HelpTableOf(es), '\n'))
  {
    HelpRowsDescribe(es);
    HeaderFooterLines();
    FixedLinesSingle();
    TableLines(HelpHeader, HelpFooter, HelpHeaderLines, HelpRows(es), HelpFooterLines);
    ThreeParts(Split(HelpTableOf(es), '\n'), HelpHeaderLines, HelpRows(es), HelpFooterLines);
  }

  /** The bot's help table: the header lines, then `name|documentation` for
      `hello` and `help` in registration order, then the footer lines. */
  lemma HelpTableRows()
    ensures TableLayout(Entries, Split(HelpTable(), '\n'))
  {
    DefaultRegistry("");
    HelpTableLayout(Entries);
  }

  /** `help` with a registered command as first argument answers with that
      command's documentation on one line; anything else gets the table. */
  lemma HelpDispatch(commands: seq<(string, Command)>, args: seq<string>)
    requires UniqueNames(commands) && NamesSingleLine(commands)
    ensures forall i :: 0 <= i < |commands| && |args| > 0 && args[0] == commands[i].0 ==>
      HelpReply(commands, args) == "*" + args[0] + "*: " + Doc(commands[i].1)
    ensures (|args| == 0 || forall i :: 0 <= i < |commands| ==> args[0] != commands[i].0) ==>
      HelpReply(commands, args) == HelpTableOf(commands) &&
      TableLayout(commands, Split(HelpReply(commands, args), '\n'))
  {
    if |args| > 0 {
      LookupFinds(commands, args[0]);
    }
    HelpTableLayout(commands);
  }

  /** The reply text of the handler chosen for the first token. */
  function RunCommand(commands: seq<(string, Command)>, handler: Option<Command>, args: seq<string>, m: Message): string {
    match handler
    case None => UnknownCommandReply(m.content)
    case Some(Hello) => HelloReply(m)
    case Some(Help) => HelpReply(commands, args)
  }

  /** The default router's reply text, or `None` when there is no token to
      look up. */
  function CommandReply(cfg: BotConfig, m: Message): Option<string> {
    var tokens := CommandTokens(FormatMention(cfg.name), m.content);
    if |tokens| == 0 then None
    else Some(RunCommand(cfg.commands, Lookup(cfg.commands, tokens[0]), tokens[1..], m))
  }

  // ---------------------------------------------------------------------
  // Replies

  /** `send_public_message`: an absent or empty stream falls back to the
      bot's own. */
  function PublicEnvelope(cfg: BotConfig, content: string, topic: Option<string>, stream: Option<string>): Envelope {
    StreamEnvelope(if stream.Some? && stream.value != "" then stream.value else cfg.stream, topic, content)
  }

  /** `send_reply`: the envelope that answers `m` with `content`. */
  function ReplyEnvelope(cfg: BotConfig, content: string, m: Message): (e: Envelope)
    ensures e.content == content
    ensures e.PrivateEnvelope? <==> IsPrivateMessage(m)
    ensures e.PrivateEnvelope? ==> e.to == m.senderEmail
    ensures e.StreamEnvelope? ==> e.topic == m.subject
    ensures e.StreamEnvelope? && m.stream.Some? && m.stream.value != "" ==> e.to == m.stream.value
    ensures e.StreamEnvelope? && !(m.stream.Some? && m.stream.value != "") ==> e.to == cfg.stream
  {
    if IsPrivateMessage(m) then PrivateEnvelope(m.senderEmail, content)
    else PublicEnvelope(cfg, content, m.subject, m.stream)
  }

  /** `_message_handler`: filter, route (the topic table is empty, so always
      to the default router) and answer. */
  function HandleMessage(cfg: BotConfig, m: Message): Outcome {
    if !IsRelevant(cfg, m) then Ignored
    else match CommandReply(cfg, m)
      case None => IndexError
      case Some(text) => Sent(ReplyEnvelope(cfg, text, m))
  }

  /** The envelopes the gateway receives for an outcome. */
  function Sends(o: Outcome): (es: seq<Envelope>)
    ensures |es| <= 1
    ensures |es| == 1 <==> o.Sent?
  {
    if o.Sent? then [o.envelope] else []
  }

  // ---------------------------------------------------------------------
  // Properties of the pipeline

  /** The bot never answers its own messages. */
  lemma SelfSentIgnored(cfg: BotConfig, m: Message)
    requires m.senderShortName == cfg.name + "-bot"
    ensures HandleMessage(cfg, m) == Ignored
  {
  }

  /** A message is routed exactly when it is not self-sent and is private
      or contains the mention as a literal substring. */
  lemma RoutedIff(cfg: BotConfig, m: Message)
    ensures HandleMessage(cfg, m) != Ignored <==>
      m.senderShortName != cfg.name + "-bot" &&
      (m.kind == PrivateType || exists i :: OccursAt(m.content, "@**" + cfg.name + "**", i))
  {
    ContainsIff(m.content, FormatMention(cfg.name));
  }

  /** Stripping the mention: text without one is unchanged, text with one
      loses a positive multiple of the mention's length. */
  lemma StripMention(cfg: BotConfig, content: string)
    ensures var mention := "@**" + cfg.name + "**";
      var stripped := StripSelfMention(FormatMention(cfg.name), content);
      (!(exists i :: OccursAt(content, mention, i)) ==> stripped == content) &&
      ((exists i :: OccursAt(content, mention, i)) ==>
        exists k: nat :: k > 0 && |stripped| == |content| - k * |mention|)
  {
    var mention := FormatMention(cfg.name);
    ContainsIff(content, mention);
    if Contains(content, mention) {
      RemoveAllShrinks(content, mention);
    } else {
      RemoveAllAbsent(content, mention);
    }
  }

  /** Stripping is a single left-to-right pass: a mention that only forms
      once an inner mention is removed survives, for every name that does
      not itself hold `@`. */
  lemma NestedMentionSurvives(name: string)
    requires |name| > 0 && '@' !in name
    ensures var mention := FormatMention(name);
      var content := "@**" + mention + name + "**";
      Contains(content, mention) && StripSelfMention(mention, content) == mention
  {
    var mention := FormatMention(name);
    var rest := name + "**";
    var t := mention + rest;
    var s := "@**" + t;
    assert s == "@**" + mention + name + "**";
    assert mention[3] == name[0];
    SkipThree(s, t, mention);
    RemoveAllLeading(mention, rest);
    AbsentFirstChar(rest, mention);
    RemoveAllAbsent(rest, mention);
    assert "@**" + rest == mention;
    assert t[..|mention|] == mention;
    OccursInside("@**", t, mention);
  }

  /** A pattern that starts the text after a prefix occurs in the whole. */
  lemma OccursInside(a: string, t: string, pat: string)
    requires |pat| <= |t| && t[..|pat|] == pat
    ensures Contains(a + t, pat)
  {
    assert (a + t)[|a|..|a| + |pat|] == pat;
    assert OccursAt(a + t, pat, |a|);
    ContainsIff(a + t, pat);
  }

  /** No occurrence of the mention starts in the leading `@**`, whose
      asterisks meet the mention's `@` too early. */
  lemma SkipThree(s: string, t: string, mention: string)
    requires |mention| > 3 && mention[1] == '*' && mention[2] == '*' && mention[3] != '@'
    requires s == "@**" + t && |t| >= |mention| && t[0] == '@'
    ensures RemoveAll(s, mention) == "@**" + RemoveAll(t, mention)
  {
    assert s[3] == '@';
    SkipOne(s, mention, 3);
    var s1 := "**" + t;
    assert s[1..] == s1 && s1[2] == '@';
    SkipOne(s1, mention, 2);
    var s2 := "*" + t;
    assert s1[1..] == s2 && s2[1] == '@';
    SkipOne(s2, mention, 1);
    assert s2[1..] == t;
    assert [s[0]] + ([s1[0]] + ([s2[0]] + RemoveAll(t, mention))) == "@**" + RemoveAll(t, mention);
  }

  /** Text whose first `|pat|` characters differ from `pat` at `k` keeps its
      first character. */
  lemma SkipOne(s: string, pat: string, k: int)
    requires 0 <= k < |pat| <= |s| && s[k] != pat[k]
    ensures RemoveAll(s, pat) == [s[0]] + RemoveAll(s[1..], pat)
  {
    assert s[..|pat|][k] == s[k];
  }

  /** A leading occurrence is removed. */
  lemma RemoveAllLeading(pat: string, rest: string)
    requires |pat| > 0
    ensures RemoveAll(pat + rest, pat) == RemoveAll(rest, pat)
  {
    assert (pat + rest)[..|pat|] == pat && (pat + rest)[|pat|..] == rest;
  }

  /** The command tokens are non-empty and space-free, and together they are
      the stripped content without its spaces. There is a token exactly when
      some space-separated piece of the stripped content is non-empty; the
      first token is the first such piece, and the arguments are the
      non-empty pieces after it. */
  lemma TokensOfContent(cfg: BotConfig, content: string)
    ensures var tokens := CommandTokens(FormatMention(cfg.name), content);
      (forall i :: 0 <= i < |tokens| ==> tokens[i] != "" && ' ' !in tokens[i]) &&
      Concat(tokens) == Without(StripSelfMention(FormatMention(cfg.name), content), ' ')
    ensures var pieces := Split(StripSelfMention(FormatMention(cfg.name), content), ' ');
      var tokens := CommandTokens(FormatMention(cfg.name), content);
      (|tokens| > 0 <==> exists j :: 0 <= j < |pieces| && pieces[j] != "") &&
      (|tokens| > 0 ==>
        exists j ::
          0 <= j < |pieces| && pieces[j] == tokens[0] &&
          (forall k :: 0 <= k < j ==> pieces[k] == "") &&
          tokens[1..] == NonEmpty(pieces[j + 1..]))
  {
    Tokenize(StripSelfMention(FormatMention(cfg.name), content), ' ');
    NonEmptyFirst(Split(StripSelfMention(FormatMention(cfg.name), content), ' '));
  }

  /** Dispatch on the first token of a routed message: with no token at all
      it raises `IndexError` without sending anything; otherwise it answers
      the message with the reply of the handler registered under the first
      token, given the remaining tokens, or with the unknown-command reply
      quoting the original content when no handler is registered under it. */
  lemma Dispatch(cfg: BotConfig, m: Message)
    requires IsRelevant(cfg, m)
    ensures var tokens := CommandTokens(FormatMention(cfg.name), m.content);
      var o := HandleMessage(cfg, m);
      (|tokens| == 0 <==> o == IndexError) &&
      (|tokens| > 0 ==> o.Sent? && o.envelope == ReplyEnvelope(cfg, o.envelope.content, m)) &&
      (|tokens| > 0 && UniqueNames(cfg.commands) ==> forall i :: 0 <= i < |cfg.commands| && cfg.commands[i] == (tokens[0], Hello) ==>
        o.envelope.content == HelloReply(m)) &&
      (|tokens| > 0 && UniqueNames(cfg.commands) ==> forall i :: 0 <= i < |cfg.commands| && cfg.commands[i] == (tokens[0], Help) ==>
        o.envelope.content == HelpReply(cfg.commands, tokens[1..])) &&
      (|tokens| > 0 && (forall i :: 0 <= i < |cfg.commands| ==> cfg.commands[i].0 != tokens[0]) ==>
        QuotedContent(o.envelope.content) == Some(m.content))
  {
    var tokens := CommandTokens(FormatMention(cfg.name), m.content);
    if |tokens| > 0 {
      LookupFinds(cfg.commands, tokens[0]);
      UnknownReplyQuotesContent(m.content);
    }
  }

  /** With the bot's own registry: `hello` and `help` run their handler with
      the remaining tokens, and any other first token gets the
      unknown-command reply quoting the original content. */
  lemma DefaultDispatch(cfg: BotConfig, m: Message)
    requires IsRelevant(cfg, m) && cfg.commands == Entries
    ensures var tokens := CommandTokens(FormatMention(cfg.name), m.content);
      var o := HandleMessage(cfg, m);
      (|tokens| == 0 <==> o == IndexError) &&
      (|tokens| > 0 && tokens[0] == "hello" ==> o == Sent(ReplyEnvelope(cfg, HelloReply(m), m))) &&
      (|tokens| > 0 && tokens[0] == "help" ==> o == Sent(ReplyEnvelope(cfg, HelpReply(Entries, tokens[1..]), m))) &&
      (|tokens| > 0 && tokens[0] != "hello" && tokens[0] != "help" ==>
        o.Sent? && QuotedContent(o.envelope.content) == Some(m.content))
  {
    var tokens := CommandTokens(FormatMention(cfg.name), m.content);
    if |tokens| > 0 {
      DefaultRegistry(tokens[0]);
      if tokens[0] != "hello" && tokens[0] != "help" {
        UnknownReplyQuotesContent(m.content);
      }
    }
  }

  /** `hello` ignores its arguments. */
  lemma HelloIgnoresArguments(commands: seq<(string, Command)>, args: seq<string>, m: Message)
    ensures RunCommand(commands, Some(Hello), args, m) == RunCommand(commands, Some(Hello), [], m)
    ensures GreetedName(RunCommand(commands, Some(Hello), args, m)) == Some(m.senderShortName)
  {
    HelloGreetsSender(m);
  }
}
