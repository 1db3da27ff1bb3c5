# ZulipBot message routing, in Dafny

This project models the message-routing pipeline of `ZulipBot`, the INSPIRE
chat bot for Zulip, and proves properties of it. For each inbound message
the bot:

1. drops the messages it sent itself;
2. accepts a private message, or a stream message whose content holds its
   mention `@**name**`;
3. routes every accepted message to the default router, because the topic
   table is always empty;
4. removes every occurrence of the mention from the content, splits the rest
   on single spaces and drops the empty tokens;
5. runs the handler registered under the first token (`hello` or `help`),
   passing the remaining tokens as its arguments; with no handler under that
   token, it sends the "I did not understand" reply;
6. answers a private message privately, at the sender's address, and a
   stream message on its stream and topic. An absent or empty stream falls
   back to the bot's default stream.

The project has four modules.

- `Text` (text.dfy) defines the string operations the pipeline uses, over
  `seq<char>`:
  - substring search (`str.find(p) != -1`);
  - removal of every occurrence (`str.replace(p, '')`);
  - splitting on one character (`str.split(c)`);
  - joining (`c.join(parts)`);
  - dropping empty pieces.

  It proves their laws: search against the index definition, the length
  removal leaves, split/join round trips, and what tokenising keeps.
- `Routing` (routing.dfy) holds the entities as datatypes: message,
  envelope, bot configuration, command, outcome. The whole pipeline is one
  pure function, `HandleMessage(cfg, m)`, which yields `Ignored`,
  `Sent(envelope)` or `IndexError`. The module also holds the lemmas about
  the filter, stripping, tokenising, dispatch, the three reply texts and
  the reply's destination.
- `Bot` (bot.dfy) has the class `ZulipBot`. Its configuration is fixed at
  construction. An `outbox` sequence records every envelope handed to the
  gateway. Each `send_*` method appends one envelope, and each handler is a
  method. Every method's postcondition ties the new outbox to the pure
  definitions in `Routing`. The help handler builds its table line by line
  in a loop, as the source does, and is proved equal to `HelpTableOf`.
- `Scenarios` (scenarios.dfy) works through concrete exchanges with a bot
  named `bot`:
  - a greeting on a stream;
  - `help` in private;
  - `help hello`, in private and after the mention on a stream;
  - an unknown command;
  - a bare mention and an empty private message, which raise;
  - an unmentioned stream message;
  - the bot's own message;
  - a nested mention that survives stripping.

When no token is left after stripping, `commands[0]` raises `IndexError`
(bot.py:99) before any handler runs, so nothing is sent. The model's outcome
is `IndexError` and `MessageHandler` returns `RaisedIndexError`.

## Model

| member | source | states |
|---|---|---|
| Text.ContainsIff | zulip_inspire_bot/bot.py:80 | the search used for `find(...) != -1` holds exactly when the pattern occurs at some index |
| Text.AbsentFirstChar | zulip_inspire_bot/bot.py:80 | a pattern whose first character is absent from the text does not occur in it |
| Text.RemoveAllLength | zulip_inspire_bot/bot.py:83 | removal shortens the text by the number of removed occurrences times the pattern's length |
| Text.MatchCountPositive | zulip_inspire_bot/bot.py:83 | some occurrence is removed exactly when the pattern occurs |
| Text.RemoveAllAbsent | zulip_inspire_bot/bot.py:83 | text without an occurrence comes back unchanged |
| Text.RemoveAllShrinks | zulip_inspire_bot/bot.py:83 | text with an occurrence loses a positive multiple of the pattern's length |
| Text.Split | zulip_inspire_bot/bot.py:98 | `split` yields at least one piece and no piece holds the separator |
| Text.BeforeIsFirstPiece | zulip_inspire_bot/bot.py:123 | the text before the first newline is the first piece of `split('\n')` |
| Text.BeforeNoSeparator | zulip_inspire_bot/bot.py:123 | a text without a newline is its own first line |
| Text.JoinSplit | zulip_inspire_bot/bot.py:98 | joining the pieces of a split with the separator gives back the text |
| Text.SplitPrefix | zulip_inspire_bot/bot.py:98 | a separator-free prefix extends the first piece of what follows it |
| Text.SplitNoSeparator | zulip_inspire_bot/bot.py:98 | a text without the separator splits into itself alone |
| Text.SplitJoin | zulip_inspire_bot/bot.py:126 | splitting a join of separator-free lines gives back the lines |
| Text.JoinCons | zulip_inspire_bot/bot.py:126 | joining a line in front of others adds exactly one separator |
| Text.JoinAppend | zulip_inspire_bot/bot.py:123-126 | joining two non-empty lists of lines puts one separator between their joins |
| Text.NonEmpty | zulip_inspire_bot/bot.py:98 | the kept tokens are non-empty and each is one of the pieces |
| Text.NonEmptyAppend | zulip_inspire_bot/bot.py:98 | the filter keeps pieces in order: filtering a concatenation is concatenating the filtered parts |
| Text.NonEmptyFirst | zulip_inspire_bot/bot.py:98 | some piece is kept exactly when some piece is non-empty; the first kept piece is the first non-empty one, and the rest are the kept pieces after it |
| Text.ConcatNonEmpty | zulip_inspire_bot/bot.py:98 | dropping empty pieces does not change their concatenation |
| Text.ConcatSplit | zulip_inspire_bot/bot.py:98 | the pieces of a split, concatenated, are the text with every separator taken out |
| Text.Tokenize | zulip_inspire_bot/bot.py:98 | no token is empty or holds the separator, and the tokens concatenated are the text without separators |
| Routing.MentionRoundTrip | zulip_inspire_bot/bot.py:72-74 | the name is read back from its mention, which is five characters longer, so distinct names have distinct mentions |
| Routing.LookupFinds | zulip_inspire_bot/bot.py:40-43 | a registry lookup succeeds exactly for registered names; with unique names it yields the handler registered under that name |
| Routing.DefaultRegistry | zulip_inspire_bot/bot.py:40-43 | the bot's registry has unique, single-line names; `hello` finds the hello handler, `help` the help handler, any other token nothing |
| Routing.UnknownReplyQuotesContent | zulip_inspire_bot/bot.py:101-109 | the unknown-command reply quotes the original content verbatim (read back exactly) and ends with "send `help`." |
| Routing.HelloGreetsSender | zulip_inspire_bot/bot.py:130-134 | the greeting `Hi @**sender** :wave:` mentions exactly the sender's short name |
| Routing.HelpRows | zulip_inspire_bot/bot.py:123-124 | the help table has one row per registry entry |
| Routing.HelpRowsExtend | zulip_inspire_bot/bot.py:123-124 | one more entry appends its row at the end, as `extend` does |
| Routing.HeaderFooterLines | zulip_inspire_bot/bot.py:117-125 | the table's header and footer strings are their lines (title, blank, column heads, rule; blank, hint) joined by newlines |
| Routing.DocSingleLine | zulip_inspire_bot/bot.py:111-131 | each handler's documentation is a single line |
| Routing.HelpRowDescribes | zulip_inspire_bot/bot.py:123 | a row is the name, a bar and the documentation, the first line of the documentation being all of it, and holds no newline when the name holds none |
| Routing.HelpRowsAt | zulip_inspire_bot/bot.py:123-124 | row i of the table describes registry entry i, so rows follow registration order |
| Routing.HelpRowsDescribe | zulip_inspire_bot/bot.py:123-124 | every row is the name, a bar and the documentation of its entry and holds no newline |
| Routing.TableLines | zulip_inspire_bot/bot.py:117-126 | the lines of the joined table are the header's lines, the rows and the footer's lines |
| Routing.FixedLinesSingle | zulip_inspire_bot/bot.py:117-125 | none of the table's fixed lines holds a newline |
| Routing.ThreeParts | zulip_inspire_bot/bot.py:117-126 | a list made of header, rows and footer shows each part at its position |
| Routing.HelpTableLayout | zulip_inspire_bot/bot.py:117-126 | for any registry with single-line names, the table's lines are the header lines, the name, a bar and the documentation per entry in order, then the footer lines |
| Routing.HelpTableRows | zulip_inspire_bot/bot.py:117-126 | the bot's own table lists `hello` then `help`, each with its documentation, between header and footer |
| Routing.HelpDispatch | zulip_inspire_bot/bot.py:111-128 | `help` whose first argument is registered answers `*cmd*: documentation`; with no argument or an unregistered one it answers the whole table |
| Routing.ReplyEnvelope | zulip_inspire_bot/bot.py:48-70 | a reply carries the content; it is private exactly when the origin is private, addressed to the sender's email; otherwise it goes to the origin's topic and stream, or the bot's stream when that is absent or empty |
| Routing.Sends | zulip_inspire_bot/bot.py:89-99 | one message leads to at most one send, and to one exactly when the outcome is `Sent` |
| Routing.SelfSentIgnored | zulip_inspire_bot/bot.py:76-93 | a message whose sender short name is `name-bot` is ignored, whatever its content and type |
| Routing.RoutedIff | zulip_inspire_bot/bot.py:72-95 | a message is routed exactly when it is not self-sent and it is private or holds `@**name**` at some index |
| Routing.StripMention | zulip_inspire_bot/bot.py:82-83 | stripping leaves content without the mention unchanged, and otherwise shortens it by a positive multiple of the mention's length |
| Routing.NestedMentionSurvives | zulip_inspire_bot/bot.py:82-83 | stripping is one left-to-right pass: `@**` + mention + name + `**` contains the mention, yet stripping it leaves exactly a mention |
| Routing.OccursInside | zulip_inspire_bot/bot.py:80 | a pattern at the start of a suffix occurs in the whole text |
| Routing.SkipThree | zulip_inspire_bot/bot.py:83 | no occurrence of a mention starts inside a leading `@**` that is directly followed by `@` |
| Routing.SkipOne | zulip_inspire_bot/bot.py:83 | text that differs from the pattern within the first pattern-length characters keeps its first character |
| Routing.RemoveAllLeading | zulip_inspire_bot/bot.py:83 | a leading occurrence is removed |
| Routing.TokensOfContent | zulip_inspire_bot/bot.py:98 | the router's tokens are non-empty and space-free, and concatenated they are the stripped content without spaces; there is a token exactly when some space-separated piece of the stripped content is non-empty, the first token (the one looked up) is the first such piece, and the arguments are the non-empty pieces after it |
| Routing.Dispatch | zulip_inspire_bot/bot.py:97-134 | a routed message raises `IndexError`, sending nothing, exactly when no token is left; otherwise it is answered once, by the registered handler of the first token given the rest, or with the reply quoting the original content when that token is unregistered |
| Routing.DefaultDispatch | zulip_inspire_bot/bot.py:97-109 | with the bot's registry: no token raises; `hello` sends the greeting; `help` runs the help handler on the remaining tokens; any other first token gets the quoting unknown-command reply |
| Routing.HelloIgnoresArguments | zulip_inspire_bot/bot.py:130-134 | the greeting is the same whatever the arguments and mentions the sender |
| Bot.ZulipBot.constructor | zulip_inspire_bot/bot.py:33-43 | the derived short name and mention are those of `name`, the registry is `hello` then `help`, nothing has been sent |
| Bot.ZulipBot.SendPublicMessage | zulip_inspire_bot/bot.py:48-55 | appends one stream envelope, to the given stream or the bot's own when it is absent or empty |
| Bot.ZulipBot.SendPrivateMessage | zulip_inspire_bot/bot.py:57-63 | appends one private envelope to the address |
| Bot.ZulipBot.SendReply | zulip_inspire_bot/bot.py:65-70 | appends exactly the envelope `ReplyEnvelope` describes |
| Bot.ZulipBot.DefaultCommandHandler | zulip_inspire_bot/bot.py:101-109 | appends one reply quoting the message content |
| Bot.ZulipBot.HelpTableText | zulip_inspire_bot/bot.py:117-126 | the list built from the header, one appended row per entry and the footer, joined by newlines, is the help table |
| Bot.ZulipBot.HelpCommandHandler | zulip_inspire_bot/bot.py:111-128 | appends one reply: the documentation of the registered first argument, or the table |
| Bot.ZulipBot.HelloCommandHandler | zulip_inspire_bot/bot.py:130-134 | appends one reply greeting the sender |
| Bot.ZulipBot.DefaultRouter | zulip_inspire_bot/bot.py:97-99 | with no token left it raises and sends nothing; otherwise it appends exactly the chosen handler's reply |
| Bot.ZulipBot.MessageHandler | zulip_inspire_bot/bot.py:89-95 | the outbox grows by exactly the sends of `HandleMessage`, and the handler raises exactly when that outcome is `IndexError` |
| Scenarios.BotMention | zulip_inspire_bot/bot.py:72-74 | the bot `bot` has the mention `@**bot**` |
| Scenarios.StripNoAt | zulip_inspire_bot/bot.py:80-83 | text without `@` holds no mention and is left alone by stripping |
| Scenarios.SplitLeadingSpace | zulip_inspire_bot/bot.py:98 | a space followed by a word splits into an empty piece and the word |
| Scenarios.SplitTwoWords | zulip_inspire_bot/bot.py:98 | two words separated by a space split into the two words |
| Scenarios.NonEmptyWords | zulip_inspire_bot/bot.py:98 | dropping empty pieces of short lists of words |
| Scenarios.MentionThenWord | zulip_inspire_bot/bot.py:80-98 | the mention, a space and a word: the mention is found and the word is the one token |
| Scenarios.StripLeadingMention | zulip_inspire_bot/bot.py:80-83 | a leading mention is found and stripped, leaving the rest |
| Scenarios.StartsWith | zulip_inspire_bot/bot.py:80 | a text holds its own prefix |
| Scenarios.OneWord | zulip_inspire_bot/bot.py:80-98 | a single word without `@` is the one token and holds no mention |
| Scenarios.TwoWords | zulip_inspire_bot/bot.py:98 | two words without `@` are the two tokens |
| Scenarios.MentionThenTwoWords | zulip_inspire_bot/bot.py:80-98 | the mention, a space and two words: the mention is found, stripped, and the two words are the tokens |
| Scenarios.MentionAlone | zulip_inspire_bot/bot.py:80-98 | the mention alone is found and leaves no token |
| Scenarios.NothingSaid | zulip_inspire_bot/bot.py:98 | empty content leaves no token |
| Scenarios.HelloOnStream | zulip_inspire_bot/bot.py:130-134 | `@**bot** hello` on stream S, topic T is answered there with `Hi @**X** :wave:` |
| Scenarios.HelpInPrivate | zulip_inspire_bot/bot.py:111-128 | a private `help` is answered privately with the whole table, laid out as header, `hello` and `help` rows, footer |
| Scenarios.BogusOnStream | zulip_inspire_bot/bot.py:101-109 | `@**bot** bogus` is answered on the stream with the reply quoting `@**bot** bogus` |
| Scenarios.HelpAboutHello | zulip_inspire_bot/bot.py:111-115 | `help hello` is answered with `*hello*: Say hello.` |
| Scenarios.HelpAboutHelloOnStream | zulip_inspire_bot/bot.py:97-115 | `@**bot** help hello` on stream S, topic T is answered there with `*hello*: Say hello.` |
| Scenarios.MentionOnly | zulip_inspire_bot/bot.py:98-99 | a message that is only the mention raises `IndexError` |
| Scenarios.EmptyPrivate | zulip_inspire_bot/bot.py:98-99 | an empty private message raises `IndexError` |
| Scenarios.UnmentionedStream | zulip_inspire_bot/bot.py:90-93 | a stream message without the mention is ignored |
| Scenarios.OwnMessage | zulip_inspire_bot/bot.py:76-93 | the bot's own private `help` is ignored |
| Scenarios.NestedMentionOnStream | zulip_inspire_bot/bot.py:82-109 | `@**@**bot**bot**` keeps a mention after stripping and gets the unknown-command reply quoting it |

## Left out

- `ZulipBot.run` and the `zulip.Client` calls (bot.py:34, 45-46, 55, 63) are
  network transport and a blocking subscription loop. Sends are modelled as
  envelopes appended to `outbox`, and each inbound message is a call to
  `MessageHandler`.
- `ZulipWriter` (bot.py:137-150) is an I/O adapter with a fixed recipient
  and a `print`. The routing logic does not use it.
- The topic router (bot.py:39, 94-95) is always empty, so `HandleMessage`
  and `MessageHandler` go straight to the default router. Topic-specific
  handlers cannot be registered.
- Handler documentation comes from Python docstrings (`__doc__`). Here it is
  the constant `Doc`: "Say hello." and "Get help about recognized
  commands.".
- The command registry is a dictionary in the source, whose iteration order
  depends on the Python version. The model keeps it as a list in
  registration order, `hello` then `help`, so the help table's row order is
  fixed. The lemmas about an arbitrary registry assume unique names, as a
  dictionary has.
- `content`, `sender_short_name` and `sender_email` are assumed present in
  every message; only `subject` and `stream` may be absent. The source reads
  every field with `message.get`. With no `content`, `find` fails on `None`
  at bot.py:80 and the handler raises `AttributeError`. With no
  `sender_short_name`, the greeting is `Hi @**None** :wave:` (bot.py:132-133).
  With no `sender_email`, a private reply is addressed to `None` (bot.py:68).
- The message `type` is a two-valued datatype. Any type other than
  `private` is answered as a stream message, as `send_reply` does.
- The registry is fixed to the two handlers the source registers. Command
  is a two-valued datatype, not an open set of callables.
- Unicode formatting and Python 2 string types are not modelled: strings
  are sequences of characters.
- Determinism of `help` (the same input gives the same text) holds because
  `HelpReply` is a function; no separate lemma states it.
- setup.py is packaging metadata, with no behaviour to model.
