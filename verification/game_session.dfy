/** A game session (src/game/game.service.ts): built from a stored `Game`
    record, it answers players through its main chat and snapshots itself
    back into a record.

    Chats are values of a type `C` built from chat arguments `A` by the
    chat factory's `create` and read back by the chat's `get`; both are
    parameters. `V` is the type of the values in `gameState`. */
module GameSession {
  import opened Base

  /** The stored record `Game`: absent optional fields are `None`. */
  datatype GameRecord<A, V> = GameRecord(
    channelId: string,
    gameName: string,
    initPrompt: Option<string>,
    gameState: Option<map<string, V>>,
    chats: Option<map<string, A>>,
    mainChat: Option<A>)

  /** The fields of a running `GameService`. */
  datatype Session<C, V> = Session(
    gameState: map<string, V>,
    mainChat: Option<C>,
    initPrompt: Option<string>,
    chats: map<string, C>,
    gameName: string,
    channelId: string)

  /** Side chats exist only alongside a main chat; every session the
      constructor builds has this shape. */
  predicate WellFormed<C, V>(s: Session<C, V>) {
    s.mainChat.None? ==> s.chats == map[]
  }

  /** `f` applied to every value of `m`, under the same keys: the chats
      built from stored arguments, or the arguments each chat reports. */
  function MapValues<X, Y>(m: map<string, X>, f: X -> Y): (r: map<string, Y>)
    ensures r.Keys == m.Keys
    ensures forall k :: k in m ==> r[k] == f(m[k])
  {
    map k | k in m :: f(m[k])
  }

  /** The constructor. An object is always truthy, so any stored main chat
      (even `{}`) makes the chats be rebuilt. */
  function Restore<A, C, V>(g: GameRecord<A, V>, create: A -> C): (s: Session<C, V>)
    ensures WellFormed(s)
    ensures s.gameState == (if g.gameState.Some? then g.gameState.value else map[])
    ensures s.gameName == g.gameName && s.initPrompt == g.initPrompt && s.channelId == g.channelId
    ensures g.mainChat.Some? ==> s.mainChat == Some(create(g.mainChat.value))
    ensures g.mainChat.Some? ==> s.chats.Keys == g.chats.GetOr(map[]).Keys
    ensures g.mainChat.Some? ==> forall k :: k in s.chats ==> s.chats[k] == create(g.chats.GetOr(map[])[k])
    ensures g.mainChat.None? ==> s.mainChat.None? && s.chats == map[]
  {
    Session(g.gameState.GetOr(map[]),
            if g.mainChat.Some? then Some(create(g.mainChat.value)) else None,
            g.initPrompt,
            if g.mainChat.Some? then MapValues(g.chats.GetOr(map[]), create) else map[],
            g.gameName,
            g.channelId)
  }

  const Waiting: string := "En attente du chat principal"

  /** What `sendMessage` returns, and whether it asked the main chat. */
  datatype Answer = Answer(text: string, askedMainChat: bool)

  /** `sendMessage(message)`: `ask` is the main chat's answer to a message. */
  function SendMessage<C, V>(s: Session<C, V>, message: Message, ask: (C, Message) -> string): (r: Answer)
    ensures r.askedMainChat <==> s.mainChat.Some?
    ensures s.mainChat.Some? ==> r.text == ask(s.mainChat.value, message)
    ensures s.mainChat.None? ==> r.text == Waiting
  {
    match s.mainChat
    case Some(chat) => Answer(ask(chat, message), true)
    case None => Answer(Waiting, false)
  }

  /** `getGame()` as written: no `initPrompt`, and `mainChat: {}` when the
      session has no main chat (`empty` is the chat arguments `{}`). */
  function SnapshotAsWritten<A, C, V>(s: Session<C, V>, get: C -> A, empty: A): (g: GameRecord<A, V>)
    ensures g.gameName == s.gameName && g.channelId == s.channelId
    ensures g.gameState == Some(s.gameState) && g.initPrompt.None?
    ensures g.chats.Some? && g.chats.value.Keys == s.chats.Keys
    ensures forall k :: k in s.chats ==> g.chats.value[k] == get(s.chats[k])
    ensures g.mainChat.Some?
    ensures s.mainChat.Some? ==> g.mainChat.value == get(s.mainChat.value)
    ensures s.mainChat.None? ==> g.mainChat.value == empty
  {
    GameRecord(s.channelId, s.gameName, None, Some(s.gameState), Some(MapValues(s.chats, get)),
               Some(if s.mainChat.Some? then get(s.mainChat.value) else empty))
  }

  /** `getGame()` with the absent main chat left absent. */
  function Snapshot<A, C, V>(s: Session<C, V>, get: C -> A): (g: GameRecord<A, V>)
    ensures g.gameName == s.gameName && g.channelId == s.channelId
    ensures g.gameState == Some(s.gameState) && g.initPrompt.None?
    ensures g.chats.Some? && g.chats.value.Keys == s.chats.Keys
    ensures forall k :: k in s.chats ==> g.chats.value[k] == get(s.chats[k])
    ensures g.mainChat.Some? <==> s.mainChat.Some?
    ensures s.mainChat.Some? ==> g.mainChat.value == get(s.mainChat.value)
  {
    GameRecord(s.channelId, s.gameName, None, Some(s.gameState), Some(MapValues(s.chats, get)),
               if s.mainChat.Some? then Some(get(s.mainChat.value)) else None)
  }

  /** `rename(newName)`. */
  function Rename<C, V>(s: Session<C, V>, newName: string): (r: Session<C, V>)
    ensures r.gameName == newName
    ensures r.(gameName := s.gameName) == s
  {
    s.(gameName := newName)
  }

  /** Each chat of the session, rebuilt from what it reports, is the same chat. */
  ghost predicate ChatsRoundTrip<A, C, V>(s: Session<C, V>, create: A -> C, get: C -> A) {
    && (s.mainChat.Some? ==> create(get(s.mainChat.value)) == s.mainChat.value)
    && (forall k :: k in s.chats ==> create(get(s.chats[k])) == s.chats[k])
  }

  /** Restoring a snapshot gives the session back, except `initPrompt`,
      which the snapshot does not keep. */
  lemma SnapshotRestores<A, C, V>(s: Session<C, V>, create: A -> C, get: C -> A)
    requires WellFormed(s) && ChatsRoundTrip(s, create, get)
    ensures Restore(Snapshot(s, get), create) == s.(initPrompt := None)
  {
    var r := Restore(Snapshot(s, get), create);
    if s.mainChat.Some? {
      assert r.chats == s.chats;
    }
  }

  /** With a main chat, the snapshot as written also restores the session. */
  lemma SnapshotAsWrittenWithMainChat<A, C, V>(s: Session<C, V>, create: A -> C, get: C -> A, empty: A)
    requires s.mainChat.Some? && ChatsRoundTrip(s, create, get)
    ensures SnapshotAsWritten(s, get, empty) == Snapshot(s, get)
    ensures Restore(SnapshotAsWritten(s, get, empty), create) == s.(initPrompt := None)
  {
    SnapshotRestores(s, create, get);
  }

  /** A session still waiting for its main chat, snapshotted as written and
      restored, comes back with a main chat made from `{}`: it stops
      answering "En attente du chat principal" and asks that chat instead. */
  lemma SnapshotAsWrittenInventsMainChat<A, C, V>(s: Session<C, V>, create: A -> C, get: C -> A,
                                                 empty: A, message: Message, ask: (C, Message) -> string)
    requires s.mainChat.None?
    ensures SendMessage(s, message, ask) == Answer(Waiting, false)
    ensures var back := Restore(SnapshotAsWritten(s, get, empty), create);
            back.mainChat == Some(create(empty))
            && SendMessage(back, message, ask) == Answer(ask(create(empty), message), true)
  {
  }

  /** A restored session asks a main chat exactly when the record stored
      one, and then the chat rebuilt from the stored arguments. */
  lemma RestoredSessionAnswers<A, C, V>(g: GameRecord<A, V>, create: A -> C,
                                        message: Message, ask: (C, Message) -> string)
    ensures SendMessage(Restore(g, create), message, ask).askedMainChat <==> g.mainChat.Some?
    ensures g.mainChat.Some? ==>
              SendMessage(Restore(g, create), message, ask).text == ask(create(g.mainChat.value), message)
    ensures g.mainChat.None? ==> SendMessage(Restore(g, create), message, ask).text == Waiting
  {
  }

  /** Renaming changes what a snapshot records only in the name. */
  lemma RenameOnlyName<A, C, V>(s: Session<C, V>, newName: string, get: C -> A)
    ensures Snapshot(Rename(s, newName), get) == Snapshot(s, get).(gameName := newName)
  {
  }
}
