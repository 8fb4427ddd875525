/** The chat screen: the state it keeps between callbacks and the writes
    each callback issues.

    The current screen remembers the caller's `joinState` (true until the
    quit dialog is confirmed), the opponent's last observed `onlineState`,
    and a `finishCheck` flag that tells `onDestroy` the offline write was
    already made. Every presence write is the caller's own record,
    `(joinState, state)`. A blank room key means the room was just created
    and its key has to be found by a query; otherwise the message list is
    shown at once and the caller is marked online.

    The older screen keeps no presence at all and sends every message with
    the default, unread, receipt.

    The clock reading and the query results are parameters; the store
    writes are returned as effects.
 */
module RoomScreen {
  import opened Wrappers
  import opened Text
  import opened LinkedMap
  import opened ChatModel
  import opened Timestamp
  import opened Resolver
  import opened Reaper
  import opened MessageLog

  /** What a callback asks of the store and the navigation stack. */
  datatype Effect =
    | WritePresence(roomKey: string, uid: string, state: ChattingState)
    | PushMessage(roomKey: string, message: Message)
    | Census(roomKey: string, test: LeftTest)
    | ShowMessages(roomKey: string)
    | GoHome

  datatype Screen = Screen(
    uid: string,
    opponent: User,
    roomKey: string,
    opponentOnline: bool,
    finishCheck: bool,
    joinState: bool,
    input: string,
    showing: bool)

  /** The caller's own presence record with the given `onlineState`. */
  function OwnPresence(s: Screen, online: bool): (e: Effect)
  {
    WritePresence(s.roomKey, s.uid, ChattingState(s.joinState, online))
  }

  /** Every presence write among `effects` is the record of `uid` with the
      membership `joined`. */
  predicate OwnWrites(uid: string, joined: bool, effects: seq<Effect>) {
    forall e :: e in effects && e.WritePresence? ==> e.uid == uid && e.state.joinState == joined
  }

  /** `setRecycler`: show the room's messages, start listening to the
      opponent's presence, and mark the caller online. */
  function SetRecycler(s: Screen): (r: (Screen, seq<Effect>))
  {
    (s.(showing := true), [ShowMessages(s.roomKey), OwnPresence(s, true)])
  }

  /** `setChattingRoom`, once `initProperty` has read the screen's
      properties: a blank key waits for the key query, any other key shows
      the room at once. */
  function Open(uid: string, opponent: User, roomKey: string): (r: (Screen, seq<Effect>))
    ensures r.0.joinState && !r.0.finishCheck && !r.0.opponentOnline
    ensures r.0.uid == uid && r.0.roomKey == roomKey && r.0.opponent == opponent
    ensures IsBlank(roomKey) ==> r.1 == [] && !r.0.showing
    ensures !IsBlank(roomKey) ==> r.0.showing && r.1 == [ShowMessages(roomKey), WritePresence(roomKey, uid, ChattingState(true, true))]
  {
    var s := Screen(uid, opponent, roomKey, false, false, true, "", false);
    if IsBlank(roomKey) then (s, []) else SetRecycler(s)
  }

  /** The extras of the intent that starts a chat screen, over the room
      type `R` of its revision. An absent extra reads as null. */
  datatype Extras<R> = Extras(chatRoom: Option<R>, chatRoomKey: Option<string>, opponent: Option<User>)

  /** What both current launchers put, the room list's click handler and
      the search adapter's `moveToChattingRoom`: the opponent and the key,
      but no `chatRoom`. */
  function CurrentLauncherExtras(opponent: User, roomKey: string): (x: Extras<ChattingRoom>)
    ensures x.chatRoom.None? && x.chatRoomKey == Some(roomKey) && x.opponent == Some(opponent)
  {
    Extras(None, Some(roomKey), Some(opponent))
  }

  /** `onCreate` as written: `initProperty` dereferences the logged-in uid
      and reads the `chatRoom`, `chatRoomKey` and `opponent` extras, each
      of which throws when null (`!!`, or a cast of null to a non-null
      type), and only then `setChattingRoom` runs. The `chatRoom` value
      is never used afterwards. */
  function Launch(currentUid: Option<string>, x: Extras<ChattingRoom>): (r: Result<(Screen, seq<Effect>)>)
    ensures r.Failure? <==> currentUid.None? || x.chatRoom.None? || x.chatRoomKey.None? || x.opponent.None?
    ensures r.Failure? ==> r.error == NullDereference
    ensures r.Success? ==> r.value == Open(currentUid.value, x.opponent.value, x.chatRoomKey.value)
  {
    var uid :- Deref(currentUid);
    var _ :- Deref(x.chatRoom);
    var key :- Deref(x.chatRoomKey);
    var opponent :- Deref(x.opponent);
    Success(Open(uid, opponent, key))
  }

  /** Every open from a current launcher crashes in `initProperty`,
      whoever is logged in and whatever the key. */
  lemma CurrentLauncherCrashes(currentUid: Option<string>, opponent: User, roomKey: string)
    ensures Launch(currentUid, CurrentLauncherExtras(opponent, roomKey)) == Failure(NullDereference)
  {
  }

  /** `onCreate` without the unused `chatRoom` read: only the uid, the key
      and the opponent are required. */
  function FixedLaunch(currentUid: Option<string>, x: Extras<ChattingRoom>): (r: Result<(Screen, seq<Effect>)>)
    ensures r.Failure? <==> currentUid.None? || x.chatRoomKey.None? || x.opponent.None?
    ensures r.Failure? ==> r.error == NullDereference
    ensures r.Success? ==> r.value == Open(currentUid.value, x.opponent.value, x.chatRoomKey.value)
  {
    var uid :- Deref(currentUid);
    var key :- Deref(x.chatRoomKey);
    var opponent :- Deref(x.opponent);
    Success(Open(uid, opponent, key))
  }

  /** With the read dropped, a logged-in user's open from a current
      launcher reaches `setChattingRoom` with the key and opponent put,
      and it agrees with the as-written launch wherever that one works. */
  lemma FixedLauncherOpens(uid: string, opponent: User, roomKey: string, x: Extras<ChattingRoom>)
    ensures FixedLaunch(Some(uid), CurrentLauncherExtras(opponent, roomKey)) == Success(Open(uid, opponent, roomKey))
    ensures Launch(Some(uid), x).Success? ==> FixedLaunch(Some(uid), x) == Launch(Some(uid), x)
  {
  }

  /** The answer to the key query (`setChatRoomKey`): the rooms the
      opponent has joined, in query order. A match becomes the key and
      shows the room; no match leaves the screen as it was. */
  function KeyResolved(s: Screen, rooms: seq<KeyedRoom>): (r: (Screen, seq<Effect>))
    ensures ScreenResolve(rooms, s.uid, s.opponent.uid).None? ==> r == (s, [])
    ensures ScreenResolve(rooms, s.uid, s.opponent.uid).Some? ==>
              r.0.roomKey == ScreenResolve(rooms, s.uid, s.opponent.uid).value && r.0.showing &&
              r.1 == [ShowMessages(r.0.roomKey), WritePresence(r.0.roomKey, s.uid, ChattingState(s.joinState, true))]
  {
    ShowFound(s, ScreenResolve(rooms, s.uid, s.opponent.uid))
  }

  /** What the screen does with the outcome of its key scan. */
  function ShowFound(s: Screen, found: Option<string>): (r: (Screen, seq<Effect>))
    ensures OwnWrites(s.uid, s.joinState, r.1)
  {
    match found
    case None => (s, [])
    case Some(k) => SetRecycler(s.(roomKey := k))
  }

  /** `sendMessage`: nothing for an empty input; otherwise one message from
      the caller, stamped with the clock, whose receipt is the opponent's
      last observed `onlineState`. The input is cleared once the write
      succeeds. */
  function Send(s: Screen, now: DateTime, writeSucceeded: bool): (r: (Screen, seq<Effect>))
    requires Valid(now)
    ensures OwnWrites(s.uid, s.joinState, r.1)
    ensures s.input == [] ==> r == (s, [])
    ensures s.input != [] ==> |r.1| == 1 && r.1[0].PushMessage? && r.1[0].roomKey == s.roomKey
    ensures s.input != [] ==>
              var m := r.1[0].message;
              m.senderUid == s.uid && m.content == s.input && m.confirmed == s.opponentOnline &&
              ParseTimeData(m.sendingDate) == Success(TimeData(now.year, now.month, now.day, now.hour, now.minute))
    ensures s.input != [] ==> r.0 == s.(input := if writeSucceeded then [] else s.input)
  {
    if s.input == [] then (s, [])
    else
      ParseFormat(now);
      var m := Message(s.uid, Format(now), s.input, s.opponentOnline);
      (s.(input := if writeSucceeded then [] else s.input), [PushMessage(s.roomKey, m)])
  }

  /** `getOpponentOnlineState`: each users snapshot is walked and every
      child under the opponent's uid overwrites the flag; a snapshot without
      the opponent leaves the previous value. */
  function Observe(flag: bool, users: Users, opponent: Option<string>): (r: bool)
    ensures opponent.None? || !HasKey(users, opponent.value) ==> r == flag
    decreases |users|
  {
    if users == [] then flag
    else
      HasKeyTail(users, opponent.GetOr(""));
      Observe(if Some(users[0].0) == opponent then users[0].1.onlineState else flag, users[1..], opponent)
  }

  /** When the opponent is in the snapshot, the screen reads the same flag
      the repository's listener reports. */
  lemma {:induction false} ObserveAgrees(flag: bool, users: Users, opponent: string)
    requires UniqueKeys(users) && HasKey(users, opponent)
    ensures Observe(flag, users, Some(opponent)) == OpponentOnline(users, opponent)
    decreases |users|
  {
    HasKeyTail(users, opponent);
    var next := if users[0].0 == opponent then users[0].1.onlineState else flag;
    if users[0].0 == opponent {
      assert !HasKey(users[1..], opponent);
    } else {
      assert UniqueKeys(users[1..]) by {
        forall i, j | 0 <= i < j < |users[1..]| ensures users[1..][i].0 != users[1..][j].0 {
          assert users[1..][i] == users[i + 1] && users[1..][j] == users[j + 1];
        }
      }
      ObserveAgrees(next, users[1..], opponent);
    }
  }

  /** When the opponent's record is gone, the screen keeps reporting the
      opponent online while the repository reports offline. */
  lemma ObserveKeepsStaleOnline(users: Users, opponent: string)
    requires !HasKey(users, opponent)
    ensures Observe(true, users, Some(opponent)) && !OpponentOnline(users, opponent)
  {
  }

  function OpponentUsers(s: Screen, users: Users): (r: Screen)
  {
    s.(opponentOnline := Observe(s.opponentOnline, users, s.opponent.uid))
  }

  /** The back arrow: the offline write, then home; `finishCheck` keeps
      `onDestroy` from writing again. */
  function GoBack(s: Screen): (r: (Screen, seq<Effect>))
    ensures OwnWrites(s.uid, s.joinState, r.1)
  {
    (s.(finishCheck := true), [OwnPresence(s, false), GoHome])
  }

  /** The system back button: the offline write and home, without setting
      `finishCheck`. */
  function BackPressed(s: Screen): (r: (Screen, seq<Effect>))
    ensures OwnWrites(s.uid, s.joinState, r.1)
  {
    (s, [OwnPresence(s, false), GoHome])
  }

  /** The confirmed quit dialog: `joinState` becomes false, the
      `onlineState` census runs, and the screen goes home; the caller's
      record is written only later, by `onDestroy`. */
  function QuitConfirmed(s: Screen): (r: (Screen, seq<Effect>))
    ensures OwnWrites(s.uid, s.joinState, r.1)
    ensures PresenceWrites(r.1) == 0 && !r.0.joinState && r.0.uid == s.uid
  {
    (s.(joinState := false), [Census(s.roomKey, ByOnline), GoHome])
  }

  /** `onDestroy`: the offline write unless the back arrow already made it. */
  function Destroy(s: Screen): (r: seq<Effect>)
    ensures OwnWrites(s.uid, s.joinState, r)
  {
    if s.finishCheck then [] else [OwnPresence(s, false)]
  }

  function PresenceWrites(effects: seq<Effect>): (n: nat)
    ensures n <= |effects|
  {
    if effects == [] then 0
    else (if effects[0].WritePresence? then 1 else 0) + PresenceWrites(effects[1..])
  }

  /** Leaving by the back arrow writes the offline record once; leaving by
      the system back button writes it twice, the second time from
      `onDestroy`. */
  lemma LeavingWrites(s: Screen)
    requires !s.finishCheck
    ensures PresenceWrites(GoBack(s).1 + Destroy(GoBack(s).0)) == 1
    ensures PresenceWrites(BackPressed(s).1 + Destroy(BackPressed(s).0)) == 2
    ensures Destroy(BackPressed(s).0) == [WritePresence(s.roomKey, s.uid, ChattingState(s.joinState, false))]
  {
    assert GoBack(s).1 + Destroy(GoBack(s).0) == [OwnPresence(s, false), GoHome];
    var twice := BackPressed(s).1 + Destroy(BackPressed(s).0);
    assert twice == [OwnPresence(s, false), GoHome, OwnPresence(s, false)];
    assert twice[1..] == [GoHome, OwnPresence(s, false)];
    assert twice[1..][1..] == [OwnPresence(s, false)];
    assert PresenceWrites(twice[1..][1..]) == 1;
    assert PresenceWrites(twice[1..]) == 1;
  }

  /** Quitting from the screen: the census first, the caller's record
      `(false, false)` only when the screen is destroyed. */
  lemma QuitSequence(s: Screen)
    requires !s.finishCheck
    ensures QuitConfirmed(s).1 + Destroy(QuitConfirmed(s).0) ==
            [Census(s.roomKey, ByOnline), GoHome, WritePresence(s.roomKey, s.uid, ChattingState(false, false))]
  {
  }

  // ---------------------------------------------------------------------
  // Runs
  // ---------------------------------------------------------------------

  datatype Action =
    | Typed(text: string)
    | SendTapped(now: DateTime, writeSucceeded: bool)
    | KeyAnswer(found: Option<string>)  // the outcome of `KeyResolved`'s scan
    | OpponentSnapshot(users: Users)
    | BackArrow
    | SystemBack
    | Quit
    | Destroyed

  predicate ClockValid(a: Action) {
    a.SendTapped? ==> Valid(a.now)
  }

  function Step(s: Screen, a: Action): (r: (Screen, seq<Effect>))
    requires ClockValid(a)
    ensures r.0.uid == s.uid
    ensures r.0.joinState == (s.joinState && !a.Quit?)
    ensures OwnWrites(s.uid, s.joinState, r.1)
  {
    match a
    case Typed(t) => (s.(input := t), [])
    case SendTapped(now, ok) => Send(s, now, ok)
    case KeyAnswer(found) => ShowFound(s, found)
    case OpponentSnapshot(users) => (OpponentUsers(s, users), [])
    case BackArrow => GoBack(s)
    case SystemBack => BackPressed(s)
    case Quit => QuitConfirmed(s)
    case Destroyed => (s, Destroy(s))
  }

  function Run(s: Screen, actions: seq<Action>): (r: (Screen, seq<Effect>))
    requires forall i :: 0 <= i < |actions| ==> ClockValid(actions[i])
    decreases |actions|
  {
    if actions == [] then (s, [])
    else
      var (next, effects) := Step(s, actions[0]);
      var (last, more) := Run(next, actions[1..]);
      (last, effects + more)
  }

  /** Every presence write of a run is the caller's own record, and it says
      the caller has left only after the quit dialog was confirmed. */
  lemma {:induction false} RunPresence(s: Screen, actions: seq<Action>)
    requires forall i :: 0 <= i < |actions| ==> ClockValid(actions[i])
    requires s.joinState
    ensures Run(s, actions).0.joinState == (Quit !in actions)
    ensures forall e :: e in Run(s, actions).1 && e.WritePresence? ==>
              e.uid == s.uid && (e.state.joinState || Quit in actions)
    decreases |actions|
  {
    if actions != [] {
      var (next, effects) := Step(s, actions[0]);
      if actions[0].Quit? {
        assert Quit in actions;
        RunPresenceAfterQuit(next, actions[1..]);
      } else {
        RunPresence(next, actions[1..]);
        assert Quit in actions <==> Quit in actions[1..] by {
          assert actions == [actions[0]] + actions[1..];
        }
      }
    }
  }

  lemma {:induction false} RunPresenceAfterQuit(s: Screen, actions: seq<Action>)
    requires forall i :: 0 <= i < |actions| ==> ClockValid(actions[i])
    ensures !Run(s, actions).0.joinState || s.joinState
    ensures forall e :: e in Run(s, actions).1 && e.WritePresence? ==> e.uid == s.uid
    decreases |actions|
  {
    if actions != [] {
      var (next, effects) := Step(s, actions[0]);
      RunPresenceAfterQuit(next, actions[1..]);
    }
  }

  // ---------------------------------------------------------------------
  // Leaving from the screen
  // ---------------------------------------------------------------------

  /** The store-side outcome of the screen's quit: the `onlineState` census
      reads the users map either before the `(false, false)` write of
      `onDestroy` (`censusFirst`) or after it; the write happens in both. */
  function ScreenQuit(users: Users, uid: string, censusFirst: bool): (r: Outcome)
    ensures r.users == PresenceWrite(users, uid, ChattingState(false, false))
    ensures censusFirst ==> (r.deleted <==> AllLeft(users, ByOnline))
    ensures !censusFirst ==> (r.deleted <==> AllLeft(PresenceWrite(users, uid, ChattingState(false, false)), ByOnline))
  {
    var after := PresenceWrite(users, uid, ChattingState(false, false));
    Outcome(after, if censusFirst then AllLeft(users, ByOnline) else AllLeft(after, ByOnline))
  }

  /** A caller who is viewing the room (online) never deletes it when the
      census runs first. */
  lemma ScreenQuitWhileOnline(users: Users, uid: string)
    requires Get(users, uid).Some? && Get(users, uid).value.onlineState
    ensures !ScreenQuit(users, uid, true).deleted
  {
    var i :| 0 <= i < |users| && users[i] == (uid, Get(users, uid).value);
    assert !HasLeft(users[i].1, ByOnline);
  }

  /** Census first: the last member leaves while still viewing the room,
      so its own record still reads online, and the room survives; the
      repository's quit, deciding by membership, deletes it. */
  lemma ScreenQuitKeepsAbandoned()
    ensures var abandoned := [("me", ChattingState(true, true)), ("you", ChattingState(false, false))];
            !ScreenQuit(abandoned, "me", true).deleted && RepositoryQuit(abandoned, "me", true).deleted
  {
    var abandoned := [("me", ChattingState(true, true)), ("you", ChattingState(false, false))];
    assert !HasLeft(abandoned[0].1, ByOnline);
    assert OthersLeft(abandoned, "me") by {
      forall k | k != "me" && Get(abandoned, k).Some? ensures !Get(abandoned, k).value.joinState {
        assert k == "you";
      }
    }
  }

  /** Census after the write: a member leaves while the other is still a
      member, merely offline, and the room is deleted; the repository's
      quit keeps it. */
  lemma ScreenQuitDeletesShared()
    ensures var shared := [("me", ChattingState(true, true)), ("you", ChattingState(true, false))];
            ScreenQuit(shared, "me", false).deleted && !RepositoryQuit(shared, "me", true).deleted
  {
    var shared := [("me", ChattingState(true, true)), ("you", ChattingState(true, false))];
    var after := PresenceWrite(shared, "me", ChattingState(false, false));
    assert after == [("me", ChattingState(false, false)), ("you", ChattingState(true, false))];
    assert !OthersLeft(shared, "me") by {
      assert Get(shared, "you") == Some(ChattingState(true, false));
    }
  }

  /** The quit the screen evidently intends: the caller's `(false, false)`
      record is written first and the census then tests membership, as the
      repository's quit does; the room is deleted exactly when everyone
      else had already left. */
  function FixedScreenQuit(users: Users, uid: string): (r: Outcome)
    requires UniqueKeys(users)
    ensures r.users == PresenceWrite(users, uid, ChattingState(false, false))
    ensures r.deleted <==> OthersLeft(users, uid)
  {
    var after := PresenceWrite(users, uid, ChattingState(false, false));
    PutLeftAllLeft(users, uid, ChattingState(false, false));
    Outcome(after, AllLeft(after, ByJoin))
  }

  // ---------------------------------------------------------------------
  // The older screen
  // ---------------------------------------------------------------------

  datatype LegacyScreen = LegacyScreen(uid: string, opponent: User, roomKey: string, input: string, showing: bool)

  /** `setChattingRoom` of the older screen: a blank key waits for the key
      query, any other key shows the messages. No presence is written. */
  function LegacyOpen(uid: string, opponent: User, roomKey: string): (r: (LegacyScreen, seq<Effect>))
    ensures r.0.showing <==> !IsBlank(roomKey)
    ensures r.1 == (if IsBlank(roomKey) then [] else [ShowMessages(roomKey)])
    ensures r.0.roomKey == roomKey
  {
    var s := LegacyScreen(uid, opponent, roomKey, "", !IsBlank(roomKey));
    (s, if IsBlank(roomKey) then [] else [ShowMessages(roomKey)])
  }

  /** `onCreate` of the older screen: `initProperty` reads the same three
      extras, each throwing when null, after the signed-in uid, and then
      `setChattingRoom` runs. */
  function LegacyLaunch(currentUid: Option<string>, x: Extras<LegacyRoom>): (r: Result<(LegacyScreen, seq<Effect>)>)
    ensures r.Failure? <==> currentUid.None? || x.chatRoom.None? || x.chatRoomKey.None? || x.opponent.None?
    ensures r.Failure? ==> r.error == NullDereference
    ensures r.Success? ==> r.value == LegacyOpen(currentUid.value, x.opponent.value, x.chatRoomKey.value)
  {
    var uid :- Deref(currentUid);
    var _ :- Deref(x.chatRoom);
    var key :- Deref(x.chatRoomKey);
    var opponent :- Deref(x.opponent);
    Success(LegacyOpen(uid, opponent, key))
  }

  /** The older launchers, the older list's click handler and the older
      search adapter, put the room with the key and the opponent, so a
      signed-in user's open reaches `setChattingRoom`. */
  lemma LegacyLauncherOpens(uid: string, room: LegacyRoom, opponent: User, roomKey: string)
    ensures LegacyLaunch(Some(uid), Extras(Some(room), Some(roomKey), Some(opponent))) ==
            Success(LegacyOpen(uid, opponent, roomKey))
  {
  }

  /** The key query of the older screen, over rooms whose presence flag for
      the opponent is true. */
  function LegacyKeyResolved(s: LegacyScreen, rooms: seq<(string, LegacyRoom)>): (r: (LegacyScreen, seq<Effect>))
    ensures LegacyScreenResolve(rooms, s.uid, s.opponent.uid).None? ==> r == (s, [])
    ensures LegacyScreenResolve(rooms, s.uid, s.opponent.uid).Some? ==>
              r.0 == s.(roomKey := LegacyScreenResolve(rooms, s.uid, s.opponent.uid).value, showing := true) &&
              r.1 == [ShowMessages(r.0.roomKey)]
  {
    match LegacyScreenResolve(rooms, s.uid, s.opponent.uid)
    case None => (s, [])
    case Some(k) => (s.(roomKey := k, showing := true), [ShowMessages(k)])
  }

  /** `sendMessage` of the older screen: the message takes the default
      receipt, unread, whatever the opponent is doing. */
  function LegacySend(s: LegacyScreen, now: DateTime, writeSucceeded: bool): (r: (LegacyScreen, seq<Effect>))
    requires Valid(now)
    ensures s.input == [] ==> r == (s, [])
    ensures s.input != [] ==> |r.1| == 1 && r.1[0].PushMessage? && r.1[0].roomKey == s.roomKey
    ensures s.input != [] ==>
              var m := r.1[0].message;
              m.senderUid == s.uid && m.content == s.input && !m.confirmed &&
              ParseTimeData(m.sendingDate) == Success(TimeData(now.year, now.month, now.day, now.hour, now.minute))
    ensures s.input != [] ==> r.0 == s.(input := if writeSucceeded then [] else s.input)
  {
    if s.input == [] then (s, [])
    else
      ParseFormat(now);
      var m := Message(s.uid, Format(now), s.input, false);
      (s.(input := if writeSucceeded then [] else s.input), [PushMessage(s.roomKey, m)])
  }

  /** The two revisions send the same message except for the receipt, which
      the current one takes from the opponent's presence. */
  lemma SendRevisionsDiffer(s: Screen, now: DateTime, ok: bool)
    requires Valid(now) && s.input != []
    ensures var legacy := LegacyScreen(s.uid, s.opponent, s.roomKey, s.input, s.showing);
            Send(s, now, ok).1[0].message == LegacySend(legacy, now, ok).1[0].message.(confirmed := s.opponentOnline)
  {
  }
}
