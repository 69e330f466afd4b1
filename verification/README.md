# gamemaster-ai core, modelled in Dafny

gamemaster-ai is a Discord bot that runs text adventure games with a large
language model. This project models the parts of it that hold logic:

- the **prompt compiler**. It rewrites text holding embedded calls
  `name(args)`, innermost call first, until no call is left. The functions are
  `set`, `setget`, `get`, `random` and `prompt`, and they share a table of
  bindings kept on the compiler instance. Modelled in `call_pattern.dfy`,
  `prompt_compiler.dfy` and `compiler_laws.dfy`;
- the **command service**. It keeps a registry of command handlers that
  rejects duplicates, splits a command line into a command word and
  arguments, and dispatches it. Modelled in `command_service.dfy`;
- the **message router**. It ignores bots, sends `!` text to the command
  service, and forwards other direct messages to the game. Modelled in
  `message_routing.dfy`;
- the four **prefix commands** `!savegame`, `!newgame`, `!showgames` and
  `!loadgame`. They cover argument extraction by `split`, the file-name
  sanitiser, the game listing, and the server-only guard. Modelled in
  `prefix_commands.dfy`;
- the **chats** and the **game session**. The plain chat history, the
  suggestion chat that picks one of several bar-separated suggestions, and the
  game session that is restored from a stored record and snapshotted back.
  Modelled in `chat.dfy`, `creative_chat.dfy` and `game_session.dfy`.

The JavaScript string operations the code relies on are modelled in
`text.dfy`: `indexOf`, `replace` with a string pattern, `split` and `join`.
Common types are in `base.dfy`.

Effects are values. The completion service and `Math.random()` are oracles
in a `World`, indexed by how many oracle calls came before. The chat factory
is a pair of functions `create` and `get`, and the game factory's answers are
function parameters. A command's effects are a list of `Effect` values. The
compiler's rewrite loop runs on fuel; when the fuel runs out, the result is
the error `OutOfFuel`.

Three consequences of the code shape the model:

- **Where bindings live.** The binding table is the compiler instance
  itself (`this[key] = value`). So it persists across `exec` calls, and a
  key can shadow a method. `CompilerLaws.SetPersistsAcrossExec`,
  `CompilerLaws.BindingShadowsFunction` and
  `CompilerLaws.BindingGetRegexBreaksScan` state these consequences.
- **Unbound keys.** `get` of an unbound key yields `undefined`, and `replace`
  splices that in as the text "undefined". No error is raised.
- **The budget step.** `shiftMessagesUntilWithinLimit`, `systemMessages`,
  `messages` and `push` are not defined in src/chat/chat.service.ts, the
  `ChatService` that the suggestion chat extends
  (src/chat/creativChat.service.ts:3-14). The budget step is the opaque
  parameter `shift`.

## Model

| member | source | states |
|---|---|---|
| CallPattern.CallAt | src/prompt-compiler/prompt-compiler.service.ts:6 | the scanner at a position returns a call exactly when the regex's language matches there, and that match is unique |
| CallPattern.FindCall | src/prompt-compiler/prompt-compiler.service.ts:14-18 | `exec` on a fresh regex finds the leftmost match, and finds none exactly when the text holds no call |
| CallPattern.LeftmostUnique | src/prompt-compiler/prompt-compiler.service.ts:14 | any leftmost match is the one the scanner returns |
| CallPattern.CloseFromSound | src/prompt-compiler/prompt-compiler.service.ts:6 | the closing parenthesis the scanner stops at ends an argument group that balances and nests at most two deep |
| CallPattern.CloseFromComplete | src/prompt-compiler/prompt-compiler.service.ts:6 | every balanced argument group ending at `)` is found by the scanner |
| CallPattern.MatchedTextMatches | src/prompt-compiler/prompt-compiler.service.ts:26 | wherever the matched text `match[0]` occurs, the pattern matches there as well |
| CallPattern.LeftmostIsFirstOccurrence | src/prompt-compiler/prompt-compiler.service.ts:14-26 | the first occurrence of `match[0]` is the leftmost match itself, so `replace` rewrites that call and no other |
| Base.PickIndex | src/chat/creativChat.service.ts:46 | `Math.floor(u * n)` for a draw `u` in [0, 1) is an index below `n`, the one whose unit interval holds `u * n` |
| Text.Split | src/discord/message/command/commands/savegame.command.ts:22 | `split` gives at least one piece, and exactly one, the whole string, when the separator does not occur |
| Text.Join | src/discord/message/command/commands/showgames.command.ts:27 | `join` puts the separator between successive pieces; `Text.JoinSplit` and `Text.SplitJoin` relate it to `split` |
| Text.IndexOf | src/prompt-compiler/prompt-compiler.service.ts:26 | the result is the first occurrence, and there is none exactly when the pattern does not occur |
| Text.ReplaceFirst | src/prompt-compiler/prompt-compiler.service.ts:26 | `replace` with a string pattern splices the new text over the first occurrence only, and leaves text without the pattern unchanged |
| Text.JoinSplit | src/chat/creativChat.service.ts:40-44 | joining the pieces of `split(sep)` with `sep` gives back the string |
| Text.SplitJoin | src/discord/message/command/commands/showgames.command.ts:26-29 | splitting a join on a one-character separator that no piece contains gives back the pieces |
| Text.SplitPiecesAvoidSeparator | src/discord/message/command/commands/savegame.command.ts:22 | no piece of `split(sep)` contains the separator |
| PromptCompiler.Set | src/prompt-compiler/prompt-compiler.service.ts:33-37 | `set` binds the first bar-separated field to the second (or `undefined`), leaves `__proto__` unbound, and yields "" |
| PromptCompiler.SetGet | src/prompt-compiler/prompt-compiler.service.ts:39-43 | `setget` leaves the same table as `set` and yields the value it bound |
| PromptCompiler.Get | src/prompt-compiler/prompt-compiler.service.ts:45-48 | `get` changes nothing; it yields the bound value of the first field, or "undefined" when nothing of that name exists; a key naming a member of the instance is reported as `Unmodelled` |
| PromptCompiler.Random | src/prompt-compiler/prompt-compiler.service.ts:50-53 | `random` yields one of its bar-separated fields, leaves the bindings alone and uses one draw |
| PromptCompiler.Prompt | src/prompt-compiler/prompt-compiler.service.ts:55-58 | `prompt` asks the completion service once and yields its answer, and fails when `openAiService` is shadowed |
| PromptCompiler.Invoke | src/prompt-compiler/prompt-compiler.service.ts:21-26 | a bound key or an unknown name is not a function and throws; only `set` and `setget` change the bindings |
| PromptCompiler.Compile | src/prompt-compiler/prompt-compiler.service.ts:13-28 | a normal return holds no match of the call pattern |
| PromptCompiler.Rewrite | src/prompt-compiler/prompt-compiler.service.ts:19-27 | a rewrite that returns normally leaves no call in the text |
| PromptCompiler.Exec | src/prompt-compiler/prompt-compiler.service.ts:12-31 | `exec` returns call-free text, and throws when `exec` itself is shadowed |
| CompilerLaws.NoCallUnchanged | src/prompt-compiler/prompt-compiler.service.ts:14-18 | text without a call comes back unchanged and the instance is untouched |
| CompilerLaws.NoOpenParenNoCall | src/prompt-compiler/prompt-compiler.service.ts:6 | text without `(` holds no call |
| CompilerLaws.InnermostFirst | src/prompt-compiler/prompt-compiler.service.ts:14-27 | the leftmost call's argument is compiled to call-free text first; then the function runs, seeing the bindings the argument made; then its result replaces exactly the matched span and the whole text is rescanned; any throw ends evaluation |
| CompilerLaws.RewriteLeftmost | src/prompt-compiler/prompt-compiler.service.ts:14-27 | one pass of the loop on the call the scanner found, as the replace-and-rescan step |
| CompilerLaws.LeftmostSplice | src/prompt-compiler/prompt-compiler.service.ts:26 | replacing the leftmost call's text rewrites exactly the span from its name to its `)` |
| CompilerLaws.CallAfterPlainText | src/prompt-compiler/prompt-compiler.service.ts:6-14 | in `pre f(a) post`, with no `(` in `pre` and no parentheses in `a`, the leftmost call is `f(a)`, with name `f` and argument `a` |
| CompilerLaws.PlainCallStep | src/prompt-compiler/prompt-compiler.service.ts:14-27 | one pass of the loop on `pre f(a) post` runs `f` on `a` and rescans `pre + result + post` |
| CompilerLaws.UnknownNameFails | src/prompt-compiler/prompt-compiler.service.ts:21-26 | a call to an unknown name is never left as literal text: once its argument is compiled, evaluation throws, keeping the argument's bindings |
| CompilerLaws.FuelMonotone | src/prompt-compiler/prompt-compiler.service.ts:13-28 | more fuel never changes a result that did not run out of fuel |
| CompilerLaws.RewriteFuelMonotone | src/prompt-compiler/prompt-compiler.service.ts:19-27 | the same for one rewrite |
| CompilerLaws.InvokeSetPair | src/prompt-compiler/prompt-compiler.service.ts:33-37 | `set` of key `k` and value `v` binds exactly `k` to `v` and yields "" |
| CompilerLaws.InvokeGetKey | src/prompt-compiler/prompt-compiler.service.ts:45-48 | `get(k)` on a bound key yields its value and changes nothing |
| CompilerLaws.SetThenGet | src/prompt-compiler/prompt-compiler.service.ts:33-48 | `get(k)` right after `set` of key `k` and value `v` yields `v` |
| CompilerLaws.SetGetYieldsValue | src/prompt-compiler/prompt-compiler.service.ts:39-43 | `setget` of key `k` and value `v` yields `v` and binds like `set` of key `k` and value `v` |
| CompilerLaws.SetIgnoresExtraFields | src/prompt-compiler/prompt-compiler.service.ts:34 | fields after the second do not affect `set` |
| CompilerLaws.SetWithoutValue | src/prompt-compiler/prompt-compiler.service.ts:33-48 | `set(k)` binds `k` to `undefined`, which `get` yields as "undefined" |
| CompilerLaws.FieldsOfJoin | src/prompt-compiler/prompt-compiler.service.ts:34 | splitting on the bar character fields joined by it, none holding it, gives the fields back |
| CompilerLaws.BindingShadowsFunction | src/prompt-compiler/prompt-compiler.service.ts:21-37 | once a key named like a function is bound, calling that name throws |
| CompilerLaws.BindingGetRegexBreaksScan | src/prompt-compiler/prompt-compiler.service.ts:6-37 | binding `getRegex` makes the next scan throw |
| CompilerLaws.RandomReachesEveryField | src/prompt-compiler/prompt-compiler.service.ts:50-53 | every field of `random` is picked by some draw |
| CompilerLaws.PromptSendsFirstField | src/prompt-compiler/prompt-compiler.service.ts:55-58 | `prompt` sends only the first field, as one system message, and yields the answer verbatim |
| CompilerLaws.SetPersistsAcrossExec | src/prompt-compiler/prompt-compiler.service.ts:12-48 | a value bound by one `exec` is read back by `get` in a later `exec` |
| CompilerLaws.ExecSet | src/prompt-compiler/prompt-compiler.service.ts:12-37 | `exec` of a lone `set` call yields "" and binds `k` |
| CompilerLaws.ExecGet | src/prompt-compiler/prompt-compiler.service.ts:12-48 | `exec("get(k)")` yields the bound value |
| CompilerLaws.SetThenGetInText | src/prompt-compiler/prompt-compiler.service.ts:20-48 | in `pre`, a `set` of `k` to `v`, `mid`, then `get(k)`, the later call sees the earlier binding: the result is `pre mid v`, with `k` left bound |
| CompilerLaws.SetRound | src/prompt-compiler/prompt-compiler.service.ts:26-37 | a `set` call after plain text is replaced by "" and the rest is rescanned with `k` bound |
| CompilerLaws.GetRound | src/prompt-compiler/prompt-compiler.service.ts:26-48 | a final `get` call after plain text is replaced by its value |
| CommandService.Register | src/discord/command/command.service.ts:10-15 | a name already present is rejected with the source's message; otherwise exactly that entry is added and no other name changes |
| CommandService.HandleCommand | src/discord/command/command.service.ts:17-26 | a registered command word invokes its handler with the arguments; any other word gets the reply "Unknown command: " followed by the word |
| CommandService.Trim | src/discord/command/command.service.ts:18 | `trim` removes the whitespace at both ends and nothing else |
| CommandService.SplitSpacesNoSpace | src/discord/command/command.service.ts:18 | no piece of `split(/\s+/)` holds whitespace |
| CommandService.Tokenize | src/discord/command/command.service.ts:18 | the command word holds no whitespace, and every argument is non-empty and holds no whitespace |
| CommandService.BlankContent | src/discord/command/command.service.ts:18 | when everything after the first character is whitespace, the command word is "" and there are no arguments |
| CommandService.TokenizeJoin | src/discord/command/command.service.ts:18 | a prefix character followed by words separated by single spaces tokenizes back to those words: tokenizing inverts joining |
| CommandService.SplitJoinSpace | src/discord/command/command.service.ts:18 | `split(/\s+/)` of words joined by single spaces gives the words back |
| CommandService.SplitSpaces | src/discord/command/command.service.ts:18 | `split(/\s+/)` always yields at least one piece; `CommandService.SplitInterleave` and `CommandService.SplitSpacesNoSpace` state what the pieces are |
| CommandService.SplitInterleave | src/discord/command/command.service.ts:18 | `split(/\s+/)` of words separated by whitespace runs of any length and kind gives the words back |
| CommandService.TrimAround | src/discord/command/command.service.ts:18 | `trim` removes exactly the whitespace runs around a line that starts and ends with a non-space character |
| CommandService.TokenizeWords | src/discord/command/command.service.ts:18 | a prefix character, optional whitespace, words separated by whitespace runs of any length and kind, and optional trailing whitespace tokenize to the first word as the command and the others as arguments |
| CommandService.RegisterThenHandle | src/discord/command/command.service.ts:14-22 | after registering a fresh name, that command invokes the new handler and every other command behaves as before |
| CommandService.FirstRegistrationWins | src/discord/command/command.service.ts:11-22 | registering a name twice is rejected, and the first handler stays in charge |
| MessageRouting.RouteOf | src/discord/message/message.service.ts:16-27 | every message takes exactly one route: bots and plain text from a server are ignored, `!` text goes to commands, and other text goes to the game |
| MessageRouting.HandleMessage | src/discord/message/message.service.ts:16-27 | commands are dispatched by the command service; the game's answer is sent back only to a sendable channel |
| MessageRouting.BotsIgnored | src/discord/message/message.service.ts:17 | a bot's message is ignored whatever its content |
| MessageRouting.CommandsIgnoreGuild | src/discord/message/message.service.ts:18-19 | `!` text is dispatched the same way inside and outside a server |
| MessageRouting.GameOnlyOutsideGuilds | src/discord/message/message.service.ts:20-24 | plain text is forwarded only outside a server |
| PrefixCommands.Arg | src/discord/message/command/commands/savegame.command.ts:22-23 | the extracted argument never contains the delimiter |
| PrefixCommands.ArgWithoutDelimiter | src/discord/message/command/commands/newgame.command.ts:21-22 | without the delimiter the argument is "" |
| PrefixCommands.ArgUpToNextDelimiter | src/discord/message/command/commands/savegame.command.ts:22-23 | the argument is the text between the first and second occurrences of the delimiter, located by `indexOf` |
| PrefixCommands.ArgIsDelimited | src/discord/message/command/commands/showgames.command.ts:22-23 | the argument taken by `split` is the text `indexOf` delimits: from after the first delimiter to the next one or the end, or "" without a delimiter |
| PrefixCommands.ArgToEnd | src/discord/message/command/commands/newgame.command.ts:21-22 | with a single delimiter, the argument runs to the end of the content |
| PrefixCommands.ArgAfterFirstDelimiter | src/discord/message/command/commands/newgame.command.ts:21 | text before the first delimiter is discarded, and an argument without the delimiter comes back intact |
| PrefixCommands.NamedCommandArg | src/discord/message/command/commands/showgames.command.ts:6-23 | with a delimiter that has no `!`, such as `showgames `, the text `!showgames x` yields `x` |
| PrefixCommands.PrefixedCommandArg | src/discord/message/command/commands/savegame.command.ts:22-23 | `!savegame x` yields `x` |
| PrefixCommands.Sanitise | src/discord/message/command/commands/savegame.command.ts:25 | every character of the file name is in `[A-Za-z0-9-_]`, and the UTF-16 length is kept |
| PrefixCommands.SanitisePositionwise | src/discord/message/command/commands/savegame.command.ts:25 | in a name without surrogate pairs, each allowed character stays in place and each other character becomes `_`, so the length is kept |
| PrefixCommands.SanitiseKeepsAllowed | src/discord/message/command/commands/savegame.command.ts:25 | a name that is already valid is unchanged |
| PrefixCommands.SanitiseIdempotent | src/discord/message/command/commands/savegame.command.ts:25 | sanitising twice is sanitising once |
| PrefixCommands.SanitiseEmpty | src/discord/message/command/commands/savegame.command.ts:23-25 | an empty argument gives an empty file name |
| PrefixCommands.SanitiseAppend | src/discord/message/command/commands/savegame.command.ts:25 | sanitising two pieces one after the other is sanitising their concatenation, because the global `replace` acts on each code unit independently |
| PrefixCommands.SanitiseLength | src/discord/message/command/commands/savegame.command.ts:25 | the file name has exactly one character per UTF-16 code unit of the input |
| PrefixCommands.SanitiseAtOffset | src/discord/message/command/commands/savegame.command.ts:25 | for any input, surrogate pairs included, the `i`-th character appears at its UTF-16 offset in the file name when allowed and as `_` otherwise, with a second `_` for the low half of a surrogate pair |
| PrefixCommands.SanitiseMakesFileName | src/discord/message/command/commands/savegame.command.ts:25 | the sanitiser's output is all allowed characters, one per UTF-16 code unit of the input; it keeps a valid name whole and places every input character at its UTF-16 offset, kept if allowed and `_` otherwise (so on text inside the Basic Multilingual Plane each allowed character keeps its index) |
| PrefixCommands.SurrogatePairName | src/discord/message/command/commands/savegame.command.ts:25 | the only file name made from an emoji followed by `x` is `__x`: the pair becomes two `_` and the `x` is kept one code unit further on |
| PrefixCommands.SaveGame | src/discord/message/command/commands/savegame.command.ts:19-30 | renames the channel's game to a file name made from the text after `!savegame ` up to the next one (as `indexOf` locates it): one allowed character per UTF-16 code unit of the argument, a valid name kept whole, and every argument character at its UTF-16 offset, kept if allowed and replaced by `_` (two for a surrogate pair) otherwise; then replies with the name the renamed game reports |
| PrefixCommands.SaveGameValidName | src/discord/message/command/commands/savegame.command.ts:22-25 | `!savegame x`, for a valid name `x`, renames the game to exactly `x` |
| PrefixCommands.NewGameAnnouncement | src/discord/message/command/commands/newgame.command.ts:29-31 | the announcement names the game first and ends with the game's first message, whole |
| PrefixCommands.StartGame | src/discord/message/command/commands/newgame.command.ts:18-33 | starts a game on the channel with the text after `!newgame ` up to the next one (as `indexOf` locates it) as the prompt, and announces the game the factory started for that prompt only to a sendable channel |
| PrefixCommands.StartGameWithPrompt | src/discord/message/command/commands/newgame.command.ts:20-31 | `!newgame x` starts a game with prompt exactly `x`, and the announcement names the started game and ends with its first message |
| PrefixCommands.Bullets | src/discord/message/command/commands/showgames.command.ts:27 | one `- name` line per game, in order |
| PrefixCommands.Listing | src/discord/message/command/commands/showgames.command.ts:26-29 | read line by line, the reply is the header, one bullet per game in the order returned, a blank line and the footer; no games leave one extra blank line |
| PrefixCommands.SplitFramedLines | src/discord/message/command/commands/showgames.command.ts:26-29 | a header, lines, a blank line and a footer, joined by a separator none of them holds, split back into those lines |
| PrefixCommands.ShowGames | src/discord/message/command/commands/showgames.command.ts:18-30 | asks the factory for the channel's games matching the text after `showgames ` up to the next `showgames ` (as `indexOf` locates it, or "" without one), and replies with exactly those games, one per line between header and footer |
| PrefixCommands.LoadGameCommand | src/discord/message/command/commands/loadgame.command.ts:19-34 | outside a server only the error reply, with no effect on the factory; inside, a lookup by the text after `loadgame ` up to the next `loadgame ` (as `indexOf` locates it), a load of exactly what the lookup returned for that name, and a reply that echoes the name |
| PrefixCommands.LoadGameNeedsGuild | src/discord/message/command/commands/loadgame.command.ts:22-25 | outside a server the factory is never touched |
| PrefixCommands.LoadGameByName | src/discord/message/command/commands/loadgame.command.ts:28-33 | `!loadgame x` looks up and loads exactly `x` |
| Chat.SendText | src/chat/chat.service.ts:22-28 | exactly one entry is appended and earlier ones are kept; a request is issued exactly for a user message and carries the whole history |
| Chat.SendAll | src/chat/chat.service.ts:9-28 | a run of `sendText` calls appends every message in order and issues one request per user message, in order of strictly growing length; each request is a prefix of the history that ends in a user message, so request k ends in the k-th user message |
| Chat.SendAllFromStart | src/chat/chat.service.ts:9-28 | from a new chat's initial history, every request starts with the system message "You are a helpful assistant." followed by the messages sent up to the user message that triggered it |
| CreativeChat.Create | src/chat/creativChat.service.ts:16-22 | `listMessages` defaults to the empty list |
| CreativeChat.Generate | src/chat/creativChat.service.ts:29-54 | the request is the system messages, the shifted conversation and the list instruction; a rejected request yields no answer and leaves only the shifted conversation; otherwise the raw reply goes to `listMessages`, the answer is one of the reply's bar-separated fields, and the conversation gains the suggestion request and then the answer |
| CreativeChat.AnswerIsLastMessage | src/chat/creativChat.service.ts:46-53 | a returned suggestion is the last message recorded, and the list instruction is never recorded |
| CreativeChat.SingleSuggestion | src/chat/creativChat.service.ts:44-46 | an answered reply without the bar character is returned whole |
| CreativeChat.EverySuggestionReachable | src/chat/creativChat.service.ts:44-46 | every field of an answered reply is picked by some draw |
| CreativeChat.ListHistoryKeepsAllSuggestions | src/chat/creativChat.service.ts:40-44 | after an answered request, the recorded raw reply holds every suggestion: joining its fields gives it back |
| GameSession.Restore | src/game/game.service.ts:26-43 | state defaults to `{}`, name, prompt and channel are copied, and chats are rebuilt exactly when a main chat is stored |
| GameSession.SendMessage | src/game/game.service.ts:48-54 | without a main chat the answer is "En attente du chat principal" and nothing is asked; with one, its answer |
| GameSession.RestoredSessionAnswers | src/game/game.service.ts:37-54 | a restored session asks a main chat exactly when the record stored one, and then the chat rebuilt from the stored arguments |
| GameSession.Snapshot | src/game/game.service.ts:170-184 | the record keeps name, channel, state and every chat under its key; the main chat is present exactly when the session has one |
| GameSession.SnapshotAsWritten | src/game/game.service.ts:170-184 | as written, an absent main chat is recorded as `{}` |
| GameSession.SnapshotRestores | src/game/game.service.ts:26-184 | restoring a snapshot gives the session back, except `initPrompt`, which the snapshot does not keep |
| GameSession.SnapshotAsWrittenWithMainChat | src/game/game.service.ts:182 | with a main chat, the snapshot as written is the corrected one |
| GameSession.SnapshotAsWrittenInventsMainChat | src/game/game.service.ts:37-182 | a session still waiting for its main chat, saved as written and restored, gets a main chat built from `{}` and stops answering "En attente du chat principal" |
| GameSession.Rename | src/game/game.service.ts:186-188 | only the name changes |
| GameSession.RenameOnlyName | src/game/game.service.ts:170-188 | after a rename, the snapshot differs only in the name |

## Left out

- `GameService.createGame` (src/game/game.service.ts:59-168): a scripted sequence of completion calls, with no logic to check beyond their order.
- The game and chat factories, the OpenAI wrapper, the Discord client and its slash commands, voice and audio: these are file-system, network and event plumbing. The factory answers are function parameters.
- CreativeChat.Generate: the budget step `shiftMessagesUntilWithinLimit` is the opaque parameter `shift`; it is not defined in src/chat/chat.service.ts, the class the suggestion chat extends. `push` is modelled as appending. A completion whose content is `null` (src/chat/open-ai/open-ai.service.ts:32) is not modelled: there `split` throws after the raw reply was already recorded.
- GameSession.Restore: the chat factory's `create` and a chat's `get` are parameters; `GameSession.SnapshotRestores` assumes they invert each other on the session's chats.
- GameSession.SendMessage: the main chat's `sendMessage` is the parameter `ask`.
- Text.ReplaceFirst: inserts the new text literally. JavaScript's replacement patterns `$&`, `$$`, `` $` `` and `$'` are not interpreted.
- PromptCompiler.Compile: termination is not guaranteed in the source, since a result may itself hold calls. The loop runs on fuel and reports `OutOfFuel` when it runs out. `CompilerLaws.FuelMonotone` shows that any other result does not depend on the fuel.
- PromptCompiler.Invoke: when a call names another member of the instance, it is reported as the error `Unmodelled` rather than run. This covers `exec`, `getRegex`, `openAiService`, the constructor, and the `Object.prototype` methods.
- Logging with `console.log` (src/prompt-compiler/prompt-compiler.service.ts:16,22-24; src/chat/chat.service.ts:24): output only.
- The `userId` argument of `sendText`: it is only logged.
- Asynchrony: each operation is modelled as one step. `sendText` (src/chat/chat.service.ts:26), the command handler (src/discord/command/command.service.ts:22) and the message router's `handleCommand` and `send` calls (src/discord/message/message.service.ts:19-23) do not await the promises they start, so their failures are unhandled rejections, and interleavings of concurrent messages are not modelled.
- Chat.SendText: the completion request is modelled as a copy of the history at the time of the call. The source passes the live `chatHistory` array and drops the promise, so a later `sendText` can change what a pending request sees, and a failed request is an unhandled rejection. Chat.SendAll rests on the same copy.
- PromptCompiler.Get: a key naming one of the instance's own members (`openAiService`, `exec`, `getRegex`, `toString` and the other `Object.prototype` members) yields the error `Unmodelled`. In the source `get` returns that member to `replace` (src/prompt-compiler/prompt-compiler.service.ts:26). An object member such as `openAiService` is spliced as "[object Object]". A method is called by `replace` as a replacer function with `this` undefined, so the outcome depends on the method: `toString` gives "[object Undefined]", the async methods give "[object Promise]", `getRegex` gives the regular expression's text, and methods such as `valueOf` or `constructor` throw a `TypeError`.
- Running time: the call pattern of src/prompt-compiler/prompt-compiler.service.ts:6 nests a quantifier inside a quantifier, so a backtracking engine can take exponential time on an unclosed `name(` followed by a long run without parentheses. The model finds the same matches but says nothing about time.
- `Math.random()` is a `Fraction` in [0, 1) drawn from the oracle. Floating-point rounding of `u * n` is not modelled.
- Whitespace in `trim` and `\s` is the set ECMAScript uses. Line terminators and `U+FEFF` are included; Unicode category lookups are not needed.

## Findings

| source | as written | input that shows it | evidently intended | confidence | as-written member | corrected member |
|---|---|---|---|---|---|---|
| src/game/game.service.ts:182 | `getGame` records `mainChat: {}` when the session has no main chat, and the constructor (line 37) treats `{}` as a stored main chat | a session created without a main chat, saved with `getGame` and restored | leave `mainChat` absent, so the restored session still answers "En attente du chat principal" | not executed; the restore path is read from lines 37-42 | GameSession.SnapshotAsWritten (GameSession.SnapshotAsWrittenInventsMainChat) | GameSession.Snapshot (GameSession.SnapshotRestores) |
