/** The plain chat service (src/chat/chat.service.ts): a history that
    starts with one system message and grows by one entry per `sendText`;
    a user's text also asks the completion service about the whole
    history, whose reply is dropped. */
module Chat {
  import opened Base

  /** The history a new chat service starts with. */
  const InitialHistory: seq<Message> := [Message(System, "You are a helpful assistant.")]

  /** The history after a `sendText`, and the completion request it
      issued, if any. */
  datatype Sent = Sent(history: seq<Message>, request: Option<seq<Message>>)

  /** `sendText({role, text})`. */
  function SendText(history: seq<Message>, role: Role, text: string): (r: Sent)
    ensures |r.history| == |history| + 1
    ensures r.history[..|history|] == history
    ensures r.history[|history|] == Message(role, text)
    ensures r.request.Some? <==> role == User
    ensures r.request.Some? ==> r.request.value == r.history
  {
    var h := history + [Message(role, text)];
    Sent(h, if role == User then Some(h) else None)
  }

  /** Number of user messages in `ms`. */
  function UserCount(ms: seq<Message>): nat {
    if |ms| == 0 then 0 else (if ms[0].role == User then 1 else 0) + UserCount(ms[1..])
  }

  /** Counting user messages over a sequence extended by one. */
  lemma UserCountSnoc(ms: seq<Message>, m: Message)
    ensures UserCount(ms + [m]) == UserCount(ms) + (if m.role == User then 1 else 0)
    decreases |ms|
  {
    if |ms| == 0 {
      assert ms + [m] == [m];
    } else {
      assert (ms + [m])[1..] == ms[1..] + [m];
    }
  }

  /** Each request is strictly longer than the one before it. */
  predicate Growing(requests: seq<seq<Message>>) {
    forall k :: 0 < k < |requests| ==> |requests[k - 1]| < |requests[k]|
  }

  /** A request longer than every earlier one keeps the list growing. */
  lemma GrowingSnoc(requests: seq<seq<Message>>, r: seq<Message>)
    requires Growing(requests)
    requires forall k :: 0 <= k < |requests| ==> |requests[k]| < |r|
    ensures Growing(requests + [r])
  {
    var rs := requests + [r];
    forall k | 0 < k < |rs|
      ensures |rs[k - 1]| < |rs[k]|
    {
      if k < |requests| {
        assert rs[k - 1] == requests[k - 1] && rs[k] == requests[k];
      } else {
        assert rs[k - 1] == requests[k - 1] && rs[k] == r;
      }
    }
  }

  /** A sequence of `sendText` calls starting from `history`: the history
      ends as `history` followed by every message in order, and one request
      went out per user message, each carrying the history as it stood
      right after that message. */
  method SendAll(history: seq<Message>, ms: seq<Message>) returns (h: seq<Message>, requests: seq<seq<Message>>)
    ensures h == history + ms
    ensures |requests| == UserCount(ms)
    ensures forall k :: 0 <= k < |requests| ==>
              |history| < |requests[k]| <= |h| && requests[k] == h[..|requests[k]|]
              && requests[k][|requests[k]| - 1].role == User
    ensures Growing(requests)
  {
    h := history;
    requests := [];
    var i := 0;
    while i < |ms|
      invariant 0 <= i <= |ms|
      invariant h == history + ms[..i]
      invariant |requests| == UserCount(ms[..i])
      invariant forall k :: 0 <= k < |requests| ==>
                  |history| < |requests[k]| <= |h| && requests[k] == h[..|requests[k]|]
                  && requests[k][|requests[k]| - 1].role == User
      invariant Growing(requests)
    {
      var s := SendText(h, ms[i].role, ms[i].content);
      assert ms[..i + 1] == ms[..i] + [ms[i]];
      UserCountSnoc(ms[..i], ms[i]);
      forall k | 0 <= k < |requests|
        ensures requests[k] == s.history[..|requests[k]|] && |requests[k]| < |s.history|
      {
        assert s.history[..|h|] == h;
      }
      h := s.history;
      if s.request.Some? {
        GrowingSnoc(requests, s.request.value);
        requests := requests + [s.request.value];
      }
      i := i + 1;
    }
    assert ms[..|ms|] == ms;
  }

  /** A new chat service's conversation: every request it sends starts
      with the system message "You are a helpful assistant.", followed by
      the messages sent so far, up to and including the user message that
      triggered it. */
  method SendAllFromStart(ms: seq<Message>) returns (h: seq<Message>, requests: seq<seq<Message>>)
    ensures h == InitialHistory + ms
    ensures |requests| == UserCount(ms)
    ensures forall k :: 0 <= k < |requests| ==>
              && 2 <= |requests[k]| <= |ms| + 1
              && requests[k][0] == Message(System, "You are a helpful assistant.")
              && requests[k][1..] == ms[..|requests[k]| - 1]
              && requests[k][|requests[k]| - 1].role == User
  {
    h, requests := SendAll(InitialHistory, ms);
    forall k | 0 <= k < |requests|
      ensures requests[k][1..] == ms[..|requests[k]| - 1]
    {
      assert requests[k] == (InitialHistory + ms)[..|requests[k]|];
    }
  }
}
