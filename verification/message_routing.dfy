/** The incoming-message router (src/discord/message/message.service.ts):
    a message from a bot is ignored, a message starting with `!` goes to
    the command service, and any other message outside a server is
    forwarded to the game, whose answer is sent back when the channel can
    take it. */
module MessageRouting {
  import opened Base
  import opened CommandService

  /** The parts of a Discord message the router reads. `guildId` is a
      string or null; the channel is "sendable" when it is text-based and
      has a `send` method. */
  datatype IncomingMessage = IncomingMessage(
    authorIsBot: bool,
    content: string,
    guildId: Option<string>,
    sendable: bool)

  /** `!message.guildId` is false exactly for a non-empty id. */
  predicate InGuild(m: IncomingMessage) {
    m.guildId.Some? && m.guildId.value != ""
  }

  /** `content.startsWith('!')`. */
  predicate IsCommandText(content: string) {
    |content| > 0 && content[0] == '!'
  }

  /** The three ways `handleMessage` can go. */
  datatype Route = Ignore | ToCommand | ToGame

  /** The routing decision of `handleMessage`. */
  function RouteOf(m: IncomingMessage): (r: Route)
    ensures r == Ignore <==> m.authorIsBot || (!IsCommandText(m.content) && InGuild(m))
    ensures r == ToCommand <==> !m.authorIsBot && IsCommandText(m.content)
    ensures r == ToGame <==> !m.authorIsBot && !IsCommandText(m.content) && !InGuild(m)
  {
    if m.authorIsBot then Ignore
    else if IsCommandText(m.content) then ToCommand
    else if !InGuild(m) then ToGame
    else Ignore
  }

  /** Everything `handleMessage` does for one message. */
  datatype Handled<H> =
    | Ignored
    | Commanded(outcome: Outcome<H>)                 // the command service's dispatch
    | Forwarded(content: string, sent: Option<string>) // the text sent to the game, and what was sent back

  /** `handleMessage(message)`, with the game's answer to the forwarded
      message as a parameter. */
  function HandleMessage<H>(reg: Registry<H>, m: IncomingMessage, gameAnswer: string): (r: Handled<H>)
    ensures r.Ignored? <==> RouteOf(m) == Ignore
    ensures r.Commanded? <==> RouteOf(m) == ToCommand
    ensures r.Forwarded? <==> RouteOf(m) == ToGame
    ensures r.Commanded? ==> r.outcome == HandleCommand(reg, m.content)
    ensures r.Forwarded? ==> r.content == m.content && (r.sent.Some? <==> m.sendable)
    ensures r.Forwarded? && r.sent.Some? ==> r.sent.value == gameAnswer
  {
    match RouteOf(m)
    case Ignore => Ignored
    case ToCommand => Commanded(HandleCommand(reg, m.content))
    case ToGame => Forwarded(m.content, if m.sendable then Some(gameAnswer) else None)
  }

  /** A bot's message is never routed, whatever its content or origin. */
  lemma BotsIgnored<H>(reg: Registry<H>, m: IncomingMessage, answer: string)
    requires m.authorIsBot
    ensures HandleMessage(reg, m, answer) == Ignored
  {
  }

  /** `!` text from a person goes to the command service whether or not it
      was posted in a server: the guild plays no part in that decision. */
  lemma CommandsIgnoreGuild<H>(reg: Registry<H>, m: IncomingMessage, g: Option<string>, answer: string)
    requires !m.authorIsBot && IsCommandText(m.content)
    ensures HandleMessage(reg, m, answer) == HandleMessage(reg, m.(guildId := g), answer)
    ensures HandleMessage(reg, m, answer) == Commanded(HandleCommand(reg, m.content))
  {
  }

  /** Ordinary text reaches the game only from outside a server, and the
      game is asked regardless of whether its answer can be sent. */
  lemma GameOnlyOutsideGuilds<H>(reg: Registry<H>, m: IncomingMessage, answer: string)
    requires !m.authorIsBot && !IsCommandText(m.content)
    ensures InGuild(m) ==> HandleMessage(reg, m, answer) == Ignored
    ensures !InGuild(m) ==> HandleMessage(reg, m, answer) == Forwarded(m.content, if m.sendable then Some(answer) else None)
  {
  }
}
