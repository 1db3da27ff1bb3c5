/** Worked exchanges with a bot named `bot` holding its own registry: what
    the pipeline sends for a handful of concrete messages, whatever the bot's
    default stream. The tokenising facts are proved once for any mention and
    any words, then applied to the concrete texts. */
module Scenarios {
  import opened Text
  import opened Routing

  /** A bot named `bot` with the registry it builds at construction. */
  ghost predicate IsBot(cfg: BotConfig) {
    cfg.name == "bot" && cfg.commands == Entries
  }

  /** A message from `X` on stream `S`, topic `T`. */
  ghost predicate OnStream(m: Message, content: string) {
    m.senderShortName == "X" && m.kind == StreamType &&
    m.subject == Some("T") && m.stream == Some("S") && m.content == content
  }

  /** A private message from `X`, whose address is `x@example.com`. */
  ghost predicate InPrivate(m: Message, content: string) {
    m.senderShortName == "X" && m.senderEmail == "x@example.com" &&
    m.kind == PrivateType && m.content == content
  }

  lemma BotMention(cfg: BotConfig)
    requires IsBot(cfg)
    ensures FormatMention(cfg.name) == "@**bot**"
    ensures |cfg.name| > 0 && '@' !in cfg.name && ' ' !in FormatMention(cfg.name)
  {
  }

  // The concrete texts, assembled from their parts. Each equality sits in a
  // lemma of its own, away from the recursive string functions: a literal
  // argument to one of those makes the verifier unfold it on the constant,
  // which is expensive, so the exchanges below work on named parts and use
  // these lemmas to tie the parts to the whole message.

  lemma HelloText()
    ensures "@**bot**" + " " + "hello" == "@**bot** hello"
  {
  }

  lemma BogusText()
    ensures "@**bot**" + " " + "bogus" == "@**bot** bogus"
  {
  }

  lemma HelpHelloText()
    ensures "help" + " " + "hello" == "help hello"
  {
  }

  lemma NestedText()
    ensures "@**" + "@**bot**" + "bot" + "**" == "@**@**bot**bot**"
  {
  }

  lemma HelpHelloOnStreamText()
    ensures "@**bot**" + " " + "help" + " " + "hello" == "@**bot** help hello"
  {
  }

  lemma GreetingText()
    ensures "Hi " + FormatMention("X") + " :wave:" == "Hi @**X** :wave:"
  {
  }

  // ---------------------------------------------------------------------
  // Tokenising, for any mention and any words

  /** Text without `@` holds no mention, so stripping leaves it alone. */
  lemma StripNoAt(mention: string, s: string)
    requires |mention| > 0 && mention[0] == '@' && '@' !in s
    ensures !Contains(s, mention) && StripSelfMention(mention, s) == s
  {
    AbsentFirstChar(s, mention);
    RemoveAllAbsent(s, mention);
  }

  lemma SplitLeadingSpace(w: string)
    requires ' ' !in w
    ensures Split(" " + w, ' ') == ["", w]
  {
    SplitNoSeparator(w, ' ');
    assert (" " + w)[1..] == w;
  }

  lemma SplitTwoWords(a: string, b: string)
    requires ' ' !in a && ' ' !in b
    ensures Split(a + " " + b, ' ') == [a, b]
  {
    SplitLeadingSpace(b);
    SplitPrefix(a, " " + b, ' ');
    assert a + " " + b == a + (" " + b);
    assert a + "" == a;
  }

  lemma NonEmptyWords(a: string, b: string)
    requires a != "" && b != ""
    ensures NonEmpty(["", b]) == [b]
    ensures NonEmpty([a]) == [a]
    ensures NonEmpty([a, b]) == [a, b]
  {
    assert ["", b][1..] == [b];
    assert [b][1..] == [] && [a][1..] == [];
    assert [a, b][1..] == [b];
    assert NonEmpty([b]) == [b] + NonEmpty([]);
    assert NonEmpty([a]) == [a] + NonEmpty([]);
  }

  /** The mention, a space and a word: the mention is found and the word is
      the one token. */
  lemma MentionThenWord(mention: string, w: string)
    requires |mention| > 0 && mention[0] == '@'
    requires w != "" && ' ' !in w && '@' !in w
    ensures Contains(mention + " " + w, mention)
    ensures CommandTokens(mention, mention + " " + w) == [w]
  {
    var c := mention + " " + w;
    StripLeadingMention(mention, w);
    SplitLeadingSpace(w);
    NonEmptyWords(w, w);
    assert CommandTokens(mention, c) == NonEmpty(Split(" " + w, ' '));
  }

  lemma StripLeadingMention(mention: string, w: string)
    requires |mention| > 0 && mention[0] == '@' && '@' !in w
    ensures Contains(mention + " " + w, mention)
    ensures StripSelfMention(mention, mention + " " + w) == " " + w
  {
    assert mention + " " + w == mention + (" " + w);
    StartsWith(mention, " " + w);
    RemoveAllLeading(mention, " " + w);
    assert '@' !in " " + w;
    StripNoAt(mention, " " + w);
  }

  lemma StartsWith(pat: string, t: string)
    ensures Contains(pat + t, pat)
  {
    assert (pat + t)[..|pat|] == pat;
  }

  /** A single word without `@` is the one token. */
  lemma OneWord(mention: string, w: string)
    requires |mention| > 0 && mention[0] == '@'
    requires w != "" && ' ' !in w && '@' !in w
    ensures !Contains(w, mention)
    ensures CommandTokens(mention, w) == [w]
  {
    StripNoAt(mention, w);
    SplitNoSeparator(w, ' ');
    NonEmptyWords(w, w);
  }

  /** Two words without `@` are the two tokens. */
  lemma TwoWords(mention: string, a: string, b: string)
    requires |mention| > 0 && mention[0] == '@'
    requires a != "" && ' ' !in a && '@' !in a
    requires b != "" && ' ' !in b && '@' !in b
    ensures CommandTokens(mention, a + " " + b) == [a, b]
  {
    assert '@' !in a + " " + b;
    StripNoAt(mention, a + " " + b);
    SplitTwoWords(a, b);
    NonEmptyWords(a, b);
  }

  /** The mention, a space and two words: the mention is found and the two
      words are the tokens. */
  lemma MentionThenTwoWords(mention: string, a: string, b: string)
    requires |mention| > 0 && mention[0] == '@'
    requires a != "" && ' ' !in a && '@' !in a
    requires b != "" && ' ' !in b && '@' !in b
    ensures Contains(mention + " " + a + " " + b, mention)
    ensures CommandTokens(mention, mention + " " + a + " " + b) == [a, b]
  {
    var t := a + " " + b;
    assert mention + " " + a + " " + b == mention + " " + t;
    assert '@' !in t;
    StripLeadingMention(mention, t);
    SplitTwoWords(a, b);
    assert (" " + t)[0] == ' ' && (" " + t)[1..] == t;
    assert Split(" " + t, ' ') == ["", a, b];
    assert ["", a, b][1..] == [a, b];
    NonEmptyWords(a, b);
  }

  /** Nothing but the mention leaves no token. */
  lemma MentionAlone(mention: string)
    requires |mention| > 0
    ensures Contains(mention, mention)
    ensures CommandTokens(mention, mention) == []
  {
    assert mention[..|mention|] == mention && mention[|mention|..] == "";
    assert RemoveAll(mention, mention) == RemoveAll("", mention);
    assert NonEmpty([""]) == [];
  }

  /** Empty content leaves no token. */
  lemma NothingSaid(mention: string)
    ensures CommandTokens(mention, "") == []
  {
    assert NonEmpty([""]) == [];
  }

  // ---------------------------------------------------------------------
  // Exchanges

  /** `@**bot** hello` on stream S, topic T is answered there with a greeting
      that mentions the sender. */
  lemma HelloOnStream(cfg: BotConfig, m: Message)
    requires IsBot(cfg) && OnStream(m, "@**bot** hello")
    ensures HandleMessage(cfg, m) == Sent(StreamEnvelope("S", Some("T"), "Hi @**X** :wave:"))
  {
    var mention, w := FormatMention(cfg.name), "hello";
    BotMention(cfg);
    HelloText();
    MentionThenWord(mention, w);
    DefaultDispatch(cfg, m);
    GreetingText();
  }

  /** A private `help` gets the whole table, privately, at the sender's
      address. */
  lemma HelpInPrivate(cfg: BotConfig, m: Message)
    requires IsBot(cfg) && InPrivate(m, "help")
    ensures HandleMessage(cfg, m) == Sent(PrivateEnvelope("x@example.com", HelpTableOf(cfg.commands)))
    ensures TableLayout(Entries, Split(HandleMessage(cfg, m).envelope.content, '\n'))
  {
    var mention := FormatMention(cfg.name);
    OneWord(mention, m.content);
    DefaultDispatch(cfg, m);
    DefaultRegistry(m.content);
    HelpDispatch(cfg.commands, []);
  }

  /** An unknown command is answered with the whole original message quoted. */
  lemma BogusOnStream(cfg: BotConfig, m: Message)
    requires IsBot(cfg) && OnStream(m, "@**bot** bogus")
    ensures HandleMessage(cfg, m) == Sent(StreamEnvelope("S", Some("T"), UnknownCommandReply("@**bot** bogus")))
    ensures QuotedContent(HandleMessage(cfg, m).envelope.content) == Some("@**bot** bogus")
  {
    var mention, w := FormatMention(cfg.name), "bogus";
    BotMention(cfg);
    BogusText();
    MentionThenWord(mention, w);
    DefaultDispatch(cfg, m);
    DefaultRegistry(w);
    Dispatch(cfg, m);
  }

  /** `help hello` describes `hello` alone. */
  lemma HelpAboutHello(cfg: BotConfig, m: Message)
    requires IsBot(cfg) && InPrivate(m, "help hello")
    ensures HandleMessage(cfg, m) == Sent(PrivateEnvelope("x@example.com", "*hello*: Say hello."))
  {
    var mention, a, b := FormatMention(cfg.name), "help", "hello";
    HelpHelloText();
    TwoWords(mention, a, b);
    DefaultDispatch(cfg, m);
    assert [a, b][1..] == [b];
    DefaultRegistry(b);
    HelpDispatch(cfg.commands, [b]);
    assert cfg.commands[0] == (b, Hello);
    HelloSummary();
  }

  /** The `help hello` answer, assembled as the handler assembles it; kept
      apart for the same reason as the texts above. */
  lemma HelloSummary()
    ensures "*" + "hello" + "*: " + Doc(Hello) == "*hello*: Say hello."
  {
  }

  /** `@**bot** help hello` on stream S, topic T: the mention is stripped
      before the two tokens, and `hello` is described alone, on the stream. */
  lemma HelpAboutHelloOnStream(cfg: BotConfig, m: Message)
    requires IsBot(cfg) && OnStream(m, "@**bot** help hello")
    ensures HandleMessage(cfg, m) == Sent(StreamEnvelope("S", Some("T"), "*hello*: Say hello."))
  {
    var mention, a, b := FormatMention(cfg.name), "help", "hello";
    BotMention(cfg);
    HelpHelloOnStreamText();
    MentionThenTwoWords(mention, a, b);
    DefaultDispatch(cfg, m);
    assert [a, b][1..] == [b];
    DefaultRegistry(b);
    HelpDispatch(cfg.commands, [b]);
    assert cfg.commands[0] == (b, Hello);
    HelloSummary();
  }

  /** A message that is nothing but the mention leaves no token: the router
      raises instead of replying. */
  lemma MentionOnly(cfg: BotConfig, m: Message)
    requires IsBot(cfg) && OnStream(m, "@**bot**")
    ensures HandleMessage(cfg, m) == IndexError
  {
    BotMention(cfg);
    MentionAlone(m.content);
    DefaultDispatch(cfg, m);
  }

  /** An empty private message raises too. */
  lemma EmptyPrivate(cfg: BotConfig, m: Message)
    requires IsBot(cfg) && InPrivate(m, "")
    ensures HandleMessage(cfg, m) == IndexError
  {
    NothingSaid(FormatMention(cfg.name));
    DefaultDispatch(cfg, m);
  }

  /** A stream message without the mention is not answered. */
  lemma UnmentionedStream(cfg: BotConfig, m: Message)
    requires IsBot(cfg) && OnStream(m, "hello")
    ensures HandleMessage(cfg, m) == Ignored
  {
    OneWord(FormatMention(cfg.name), m.content);
  }

  /** The bot's own messages are never answered, even a private `help`. */
  lemma OwnMessage(cfg: BotConfig, m: Message)
    requires IsBot(cfg) && m.senderShortName == "bot-bot" && m.kind == PrivateType && m.content == "help"
    ensures HandleMessage(cfg, m) == Ignored
  {
    SelfSentIgnored(cfg, m);
  }

  /** A mention that only forms once the inner one is removed survives the
      stripping and is taken for an unknown command. */
  lemma NestedMentionOnStream(cfg: BotConfig, m: Message)
    requires IsBot(cfg) && OnStream(m, "@**@**bot**bot**")
    ensures HandleMessage(cfg, m) == Sent(StreamEnvelope("S", Some("T"), UnknownCommandReply("@**@**bot**bot**")))
  {
    var name := cfg.name;
    var mention := FormatMention(name);
    BotMention(cfg);
    NestedMentionSurvives(name);
    NestedText();
    SplitNoSeparator(mention, ' ');
    NonEmptyWords(mention, mention);
    DefaultRegistry(mention);
    Dispatch(cfg, m);
  }
}
