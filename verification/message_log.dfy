/** The message log of one conversation as the chat repository keeps it,
    and the repository's writes to the conversation.

    `getChattingRoomMessage` resets the local message map, detaches the
    previous message listener if one was ever attached, and attaches a new
    one whose child events drive the map (see `Mirror`). The writes touch
    one field or one record each: a read receipt sets `confirmed = true`
    on one message; a presence write replaces the caller's own record
    under `users/<uid>`. The opponent-presence listener reports whether the
    opponent's record exists and says it is online.
 */
module MessageLog {
  import opened Wrappers
  import opened LinkedMap
  import opened ChatModel
  import opened Mirror

  /** A listener registration the repository performs on a room's
      `messages` node. */
  datatype Registration = Attach(roomKey: string) | Detach(roomKey: string)

  /** The repository's state: the message map and whether the message
      listener property has ever been initialised. */
  datatype MessageRepo = MessageRepo(messages: Messages, listenerSet: bool)

  /** `getChattingRoomMessage`: the map is reset, the old listener is
      removed (on the new room's node, where the code calls it) if one was
      set, and the new listener is attached last. */
  function Subscribe(repo: MessageRepo, roomKey: string): (r: (MessageRepo, seq<Registration>))
    ensures r.0.messages == [] && r.0.listenerSet
    ensures |r.1| >= 1 && r.1[|r.1| - 1] == Attach(roomKey)
    ensures Detach(roomKey) in r.1 <==> repo.listenerSet
    ensures repo.listenerSet ==> r.1[0] == Detach(roomKey)
    ensures |r.1| <= 2
  {
    var detach := if repo.listenerSet then [Detach(roomKey)] else [];
    (MessageRepo([], true), detach + [Attach(roomKey)])
  }

  /** One message event: the mirror update, and whether the live data was
      posted. */
  function OnMessageEvent(repo: MessageRepo, e: ChildEvent<Message>): (r: (MessageRepo, bool))
    ensures r.0.messages == MirrorApply(repo.messages, e)
    ensures r.0.listenerSet == repo.listenerSet
    ensures r.1 <==> Handled(e)
  {
    (repo.(messages := MirrorApply(repo.messages, e)), Handled(e))
  }

  /** The repository after a sequence of message events. */
  function Feed(repo: MessageRepo, events: seq<ChildEvent<Message>>): MessageRepo
    decreases |events|
  {
    if events == [] then repo
    else Feed(OnMessageEvent(repo, events[0]).0, events[1..])
  }

  lemma {:induction false} FeedIsReplay(repo: MessageRepo, events: seq<ChildEvent<Message>>)
    ensures Feed(repo, events).messages == Replay(repo.messages, events)
    decreases |events|
  {
    if events != [] {
      FeedIsReplay(OnMessageEvent(repo, events[0]).0, events[1..]);
    }
  }

  /** After subscribing, the map holds exactly what the new room's events
      wrote: nothing from an earlier subscription survives. */
  lemma SubscriptionIsFresh(repo: MessageRepo, roomKey: string, events: seq<ChildEvent<Message>>, k: string)
    ensures var after := Feed(Subscribe(repo, roomKey).0, events);
            Get(after.messages, k) == LastBinding(events, k, None) && UniqueKeys(after.messages)
  {
    var start := Subscribe(repo, roomKey).0;
    FeedIsReplay(start, events);
    ReplayIsLastBinding(start.messages, events, k);
    ReplayUnique(start.messages, events);
  }

  lemma {:induction false} ReplayUnique(m: Messages, events: seq<ChildEvent<Message>>)
    requires UniqueKeys(m)
    ensures UniqueKeys(Replay(m, events))
    decreases |events|
  {
    if events != [] {
      ReplayUnique(MirrorApply(m, events[0]), events[1..]);
    }
  }

  // ---------------------------------------------------------------------
  // Writes
  // ---------------------------------------------------------------------

  /** The store's effect of `changeReadState`: `messages/<key>/confirmed =
      true`. An existing message keeps its other fields; a missing one is
      created holding only the flag, which decodes with the other fields at
      their defaults. */
  function ReadWrite(ms: Messages, key: string): (r: Messages)
    ensures Get(r, key).Some? && Get(r, key).value.confirmed
    ensures Get(ms, key).Some? ==> Get(r, key) == Some(Get(ms, key).value.(confirmed := true))
    ensures Get(ms, key).None? ==> Get(r, key) == Some(Message("", "", "", true))
    ensures forall k :: k != key ==> Get(r, k) == Get(ms, k)
  {
    var m := match Get(ms, key)
             case Some(m) => m.(confirmed := true)
             case None => Message("", "", "", true);
    Put(ms, key, m)
  }

  /** Marking a message read twice is marking it once. */
  lemma ReadWriteIdempotent(ms: Messages, key: string)
    ensures ReadWrite(ReadWrite(ms, key), key) == ReadWrite(ms, key)
  {
    PutSame(ReadWrite(ms, key), key, Get(ReadWrite(ms, key), key).value);
  }

  /** The store's effect of `changeOnlineState`: the record under the
      caller's uid is replaced. */
  function PresenceWrite(users: Users, uid: string, state: ChattingState): (r: Users)
    ensures Get(r, uid) == Some(state)
    ensures forall k :: k != uid ==> Get(r, k) == Get(users, k)
  {
    Put(users, uid, state)
  }

  /** Two participants' presence writes touch disjoint records, so their
      order does not matter. */
  lemma PresenceWritesCommute(users: Users, a: string, s: ChattingState, b: string, t: ChattingState, k: string)
    requires a != b
    ensures Get(PresenceWrite(PresenceWrite(users, a, s), b, t), k)
         == Get(PresenceWrite(PresenceWrite(users, b, t), a, s), k)
  {
  }

  /** `getOpponentUserOnlineState`: `state?.onlineState == true` for the
      opponent's child of the users snapshot; a missing child reads as
      offline. */
  function OpponentOnline(users: Users, opponent: string): (r: bool)
    ensures r <==> HasKey(users, opponent) && Get(users, opponent).value.onlineState
  {
    match Get(users, opponent)
    case Some(s) => s.onlineState
    case None => false
  }

  /** The caller's own presence writes never change what it reads about
      the opponent. */
  lemma OwnWriteKeepsOpponentState(users: Users, uid: string, state: ChattingState, opponent: string)
    requires uid != opponent
    ensures OpponentOnline(PresenceWrite(users, uid, state), opponent) == OpponentOnline(users, opponent)
  {
  }
}
