/** The bot object: its configuration, fixed at construction, and the
    messages it has handed to the gateway so far. Each handler issues at most
    one send, which appends one envelope to `outbox`; every method is tied to
    the pure definitions of the pipeline in `Routing`. */
module Bot {
  import opened Text
  import opened Routing

  /** How `_message_handler` returns: normally, or with the `IndexError`
      raised by `commands[0]` when no token is left. */
  datatype Status = Completed | RaisedIndexError

  class ZulipBot {
    const name: string
    const selfShortName: string
    const selfMention: string
    const stream: string
    /** The registry, in registration order. */
    const commandHandlers: seq<(string, Command)>
    /** Every envelope sent so far, oldest first. */
    var outbox: seq<Envelope>

    /** The derived names and the registry are those of `name`. */
    predicate Valid() {
      selfShortName == ShortName(name) &&
      selfMention == FormatMention(name) &&
      commandHandlers == Entries
    }

    function Config(): BotConfig {
      BotConfig(name, stream, commandHandlers)
    }

    constructor (name: string, stream: string)
      ensures Valid()
      ensures this.name == name && this.stream == stream
      ensures outbox == []
    {
      this.name := name;
      this.selfShortName := ShortName(name);
      this.selfMention := FormatMention(name);
      this.stream := stream;
      this.commandHandlers := Entries;
      outbox := [];
    }

    method SendPublicMessage(content: string, topic: Option<string>, stream: Option<string>)
      modifies this
      ensures outbox == old(outbox) + [PublicEnvelope(Config(), content, topic, stream)]
    {
      var to := if stream.Some? && stream.value != "" then stream.value else this.stream;
      outbox := outbox + [StreamEnvelope(to, topic, content)];
    }

    method SendPrivateMessage(content: string, address: string)
      modifies this
      ensures outbox == old(outbox) + [PrivateEnvelope(address, content)]
    {
      outbox := outbox + [PrivateEnvelope(address, content)];
    }

    /** Answers privately to the sender of a private message, and otherwise
        on the message's stream and topic. */
    method SendReply(content: string, m: Message)
      modifies this
      ensures outbox == old(outbox) + [ReplyEnvelope(Config(), content, m)]
    {
      if IsPrivateMessage(m) {
        SendPrivateMessage(content, m.senderEmail);
      } else {
        SendPublicMessage(content, m.subject, m.stream);
      }
    }

    method DefaultCommandHandler(subcommands: seq<string>, m: Message)
      modifies this
      ensures outbox == old(outbox) + [ReplyEnvelope(Config(), UnknownCommandReply(m.content), m)]
    {
      var reply := UnknownPrefix + m.content + UnknownSuffix;
      SendReply(reply, m);
    }

    /** The help table, built as a list of lines: the header, one row
        appended per registered command, the footer; then joined. */
    method HelpTableText(entries: seq<(string, Command)>) returns (reply: string)
      ensures reply == HelpTableOf(entries)
    {
      var lines := [HelpHeader];
      var i := 0;
      while i < |entries|
        invariant 0 <= i <= |entries|
        invariant lines == [HelpHeader] + HelpRows(entries[..i])
      {
        HelpRowsExtend(entries, i);
        lines := lines + [HelpRow(entries[i])];
        i := i + 1;
      }
      assert entries[..i] == entries;
      lines := lines + [HelpFooter];
      reply := Join(lines, '\n');
    }

    /** Describes the command named by the first argument, or lists them
        all. */
    method HelpCommandHandler(subcommands: seq<string>, m: Message)
      modifies this
      ensures outbox == old(outbox) + [ReplyEnvelope(Config(), HelpReply(commandHandlers, subcommands), m)]
    {
      var reply: string;
      var handler := if |subcommands| > 0 then Lookup(commandHandlers, subcommands[0]) else None;
      if handler.Some? {
        var command := subcommands[0];
        reply := "*" + command + "*: " + Doc(handler.value);
      } else {
        reply := HelpTableText(commandHandlers);
      }
      SendReply(reply, m);
    }

    /** Greets the sender; the arguments play no part. */
    method HelloCommandHandler(subcommands: seq<string>, m: Message)
      modifies this
      ensures outbox == old(outbox) + [ReplyEnvelope(Config(), HelloReply(m), m)]
    {
      var sender := m.senderShortName;
      var reply := "Hi " + FormatMention(sender) + " :wave:";
      SendReply(reply, m);
    }

    /** Strips the mention, splits on spaces, drops empty tokens and runs the
        handler registered for the first token, or the unknown-command
        handler; with no token left it raises instead of replying. */
    method DefaultRouter(m: Message) returns (status: Status)
      requires Valid()
      modifies this
      ensures CommandReply(Config(), m) == None ==>
        status == RaisedIndexError && outbox == old(outbox)
      ensures CommandReply(Config(), m).Some? ==>
        status == Completed &&
        outbox == old(outbox) + [ReplyEnvelope(Config(), CommandReply(Config(), m).value, m)]
    {
      var commands := NonEmpty(Split(StripSelfMention(selfMention, m.content), ' '));
      if |commands| == 0 {
        return RaisedIndexError;
      }
      match Lookup(commandHandlers, commands[0]) {
        case Some(Hello) => HelloCommandHandler(commands[1..], m);
        case Some(Help) => HelpCommandHandler(commands[1..], m);
        case None => DefaultCommandHandler(commands[1..], m);
      }
      status := Completed;
    }

    /** The callback the gateway calls once per inbound message. */
    method MessageHandler(m: Message) returns (status: Status)
      requires Valid()
      modifies this
      ensures status == RaisedIndexError <==> HandleMessage(Config(), m) == IndexError
      ensures outbox == old(outbox) + Sends(HandleMessage(Config(), m))
    {
      var isRelevant := !IsSelfSent(selfShortName, m) &&
        (IsSelfMention(selfMention, m) || IsPrivateMessage(m));
      status := Completed;
      if isRelevant {
        status := DefaultRouter(m);
      }
    }
  }
}
