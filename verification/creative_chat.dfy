/** The suggestion chat (src/chat/creativChat.service.ts): it asks the
    completion service for a `|`-separated list of suggestions, keeps the
    raw list, picks one suggestion at random and records it as if the
    assistant had answered a request for one suggestion.

    Its parent class keeps `systemMessages` and `messages` and provides the
    token-budget step `shiftMessagesUntilWithinLimit`, which is not part of
    this model: that step is a parameter `shift` acting on `messages`. */
module CreativeChat {
  import opened Base
  import opened Text

  /** The state of a suggestion chat. */
  datatype Suggester = Suggester(
    systemMessages: seq<Message>,
    messages: seq<Message>,
    listMessages: seq<Message>)

  /** The constructor: the parent's system messages and conversation are
      given; `args.listMessages || []` defaults the list history. */
  function Create(systemMessages: seq<Message>, messages: seq<Message>,
                  listMessages: Option<seq<Message>>): (c: Suggester)
    ensures c.systemMessages == systemMessages && c.messages == messages
    ensures listMessages.None? ==> c.listMessages == []
    ensures listMessages.Some? ==> c.listMessages == listMessages.value
  {
    Suggester(systemMessages, messages, listMessages.GetOr([]))
  }

  /** The instruction sent with every list request. */
  const ListInstruction: Message :=
    Message(User, "Génère une liste de suggestions. Non numérotées.\nSépare chaque suggestion par un \"|\". Ne mets aucun texte supplémentaire.")

  /** The request `generate` records in the conversation. */
  const SuggestionRequest: Message := Message(User, "Génère une suggestion.")

  /** The outcome of `generate`: the state it leaves, the request sent and
      the suggestion returned. The answer is `None` when the completion
      request is rejected: `generate` then rejects too, after the budget
      step has already run. */
  datatype Generated = Generated(chat: Suggester, request: seq<Message>, answer: Option<string>)

  /** `generate()`: `shift` is the budget step, `complete` the completion
      service's reply to a request, and `u` the `Math.random()` draw. */
  function Generate(c: Suggester, shift: seq<Message> -> seq<Message>,
                    complete: seq<Message> -> Reply, u: Fraction): (r: Generated)
    ensures r.request == c.systemMessages + shift(c.messages) + [ListInstruction]
    ensures r.answer.Some? <==> complete(r.request).Answered?
    ensures complete(r.request).Failed? ==> r.chat == c.(messages := shift(c.messages))
    ensures complete(r.request).Answered? ==>
              var reply := complete(r.request).text;
              && r.chat.systemMessages == c.systemMessages
              && r.chat.listMessages == c.listMessages + [Message(Assistant, reply)]
              && r.answer.value in Split(reply, "|")
              && r.chat.messages == shift(c.messages) + [SuggestionRequest, Message(Assistant, r.answer.value)]
  {
    var shifted := shift(c.messages);
    var request := c.systemMessages + shifted + [ListInstruction];
    match complete(request)
    case Failed => Generated(c.(messages := shifted), request, None)
    case Answered(listAnswer) =>
      var list := Split(listAnswer, "|");
      var answer := list[PickIndex(u, |list|)];
      Generated(Suggester(c.systemMessages, shifted + [SuggestionRequest, Message(Assistant, answer)],
                          c.listMessages + [Message(Assistant, listAnswer)]),
                request, Some(answer))
  }

  /** The returned suggestion is the content of the last message recorded,
      and the list instruction itself is never recorded in the conversation
      (only the shifted earlier messages and the two new ones are there). */
  lemma AnswerIsLastMessage(c: Suggester, shift: seq<Message> -> seq<Message>,
                            complete: seq<Message> -> Reply, u: Fraction)
    ensures var r := Generate(c, shift, complete, u);
            r.answer.Some? ==>
              && |r.chat.messages| == |shift(c.messages)| + 2
              && r.chat.messages[|r.chat.messages| - 1] == Message(Assistant, r.answer.value)
              && r.chat.messages[|r.chat.messages| - 2] == SuggestionRequest
    ensures ListInstruction !in shift(c.messages) ==> ListInstruction !in Generate(c, shift, complete, u).chat.messages
  {
    var r := Generate(c, shift, complete, u);
    assert SuggestionRequest != ListInstruction by {
      assert |SuggestionRequest.content| != |ListInstruction.content|;
    }
  }

  /** A reply without `|` is a single suggestion, returned whole. */
  lemma SingleSuggestion(c: Suggester, shift: seq<Message> -> seq<Message>,
                         complete: seq<Message> -> Reply, u: Fraction)
    requires var reply := complete(c.systemMessages + shift(c.messages) + [ListInstruction]);
             reply.Answered? && '|' !in reply.text
    ensures Generate(c, shift, complete, u).answer
              == Some(complete(c.systemMessages + shift(c.messages) + [ListInstruction]).text)
  {
    var reply := complete(c.systemMessages + shift(c.messages) + [ListInstruction]).text;
    CharOccurs(reply, '|');
    assert Split(reply, "|") == [reply];
  }

  /** Every suggestion in the list can come out: some draw picks it. */
  lemma EverySuggestionReachable(c: Suggester, shift: seq<Message> -> seq<Message>,
                                 complete: seq<Message> -> Reply, i: nat)
    requires var reply := complete(c.systemMessages + shift(c.messages) + [ListInstruction]);
             reply.Answered? && i < |Split(reply.text, "|")|
    ensures exists u: Fraction :: Generate(c, shift, complete, u).answer
              == Some(Split(complete(c.systemMessages + shift(c.messages) + [ListInstruction]).text, "|")[i])
  {
    var list := Split(complete(c.systemMessages + shift(c.messages) + [ListInstruction]).text, "|");
    PickIndexOnto(|list|, i);
    var u: Fraction :| PickIndex(u, |list|) == i;
    assert Generate(c, shift, complete, u).answer == Some(list[i]);
  }

  /** Joining the recorded raw reply's fields gives the reply back, so the
      list history keeps everything the service suggested. */
  lemma ListHistoryKeepsAllSuggestions(c: Suggester, shift: seq<Message> -> seq<Message>,
                                       complete: seq<Message> -> Reply, u: Fraction)
    ensures var r := Generate(c, shift, complete, u);
            r.answer.Some? ==>
              Join(Split(r.chat.listMessages[|r.chat.listMessages| - 1].content, "|"), "|")
                == complete(r.request).text
  {
    var r := Generate(c, shift, complete, u);
    if r.answer.Some? {
      JoinSplit(complete(r.request).text, "|");
    }
  }
}
