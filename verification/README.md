# FireChat conversation bookkeeping, in Dafny

FireChat is an Android one-to-one chat client on the Firebase Realtime
Database. Each chat room is a node `ChattingRoom/<key>` with two children:

- `users`: a map from uid to `ChattingState(joinState, onlineState)`;
- `messages`: a map from push key to `Message(senderUid, sendingDate, content, confirmed)`.

`sendingDate` is a 14-digit `yyyyMMddHHmmss` string. Around these rooms the
app keeps some bookkeeping, and that bookkeeping is what this project
models:

- It mirrors child events into insertion-ordered local maps.
- It sorts the room list by last message, and derives the counterpart,
  the unread count and an elapsed-time label.
- It flips read receipts and writes the caller's own presence.
- It deletes a room once everyone has left.
- It finds or creates the room of a pair of users.
- It formats and parses timestamps, searches users, validates the
  sign-in and sign-up forms, and delivers one-shot events.

Several classes exist in two revisions: a flat older package and the
current `model`/`view`/`viewModel` layers. The revisions behave
differently, and each is modelled as written. The older members are
named `Legacy…`.

How the model is built:

- Everything is pure functions over immutable datatypes.
- A Firebase callback becomes an event parameter: `ChatModel.ChildEvent`,
  a query snapshot in query order, or a write's success flag.
- A write becomes a returned value: an `Effect`, an `Outcome` or a new map.
- Kotlin's `LinkedHashMap` becomes a sequence of key/value pairs
  (`LinkedMap.Entries`) in insertion order. A `HashMap` read from the
  store is the same kind of sequence, and its order stands for the map's
  enumeration order. The list adapter's own `HashMap` is enumerated in
  hash order, which the model takes as a parameter (`listed`), required
  only to hold the same entries.
- `!!` on null, an uninitialised `lateinit`, `first {}` with no match, a
  substring past the end, a failed `toInt` and a date pattern that cannot
  read its text all become `Failure` values (`Wrappers.Result`). None of
  them is a precondition.
- Strings compare with Kotlin's `compareTo`. `Text.LexLess` defines that
  order explicitly, because Dafny's `<` on sequences means proper prefix.

Modules:

| module | covers |
|---|---|
| `Wrappers` | `Option`, `Result` and the crash kinds |
| `ChatModel` | rooms, presence, messages, users, child events |
| `LinkedMap` | insertion-ordered maps: `Put`, `Remove`, `Get` |
| `Mirror` | the child-event handler shared by the repositories |
| `MessageLog` | the message repository, read receipts, presence writes |
| `MessageView` | the message adapter |
| `Reaper` | the "everyone has left" censuses and the quits that trigger them |
| `Resolver` | find-or-create in its three places |
| `RoomList` | the list repository, the list adapters, counterpart, unread count, view-model aggregation |
| `RoomOrder` | last message and the room order |
| `StableSort` | the stable insertion sort that stands for `sortedWith` |
| `RoomScreen` | the chat-room screen: sending, presence, leaving, key resolution |
| `Text` | trimming, substring search, case folding, lexicographic order, zero-padded formatting, `toInt` |
| `Timestamp` | the `yyyyMMddHHmmss` codec and the date bubble |
| `ElapsedTime` | the two elapsed-time label algorithms |
| `UserSearch` | user loading and searching in both adapters and the view model |
| `FormValidation` | the sign-up and sign-in form checks |
| `OneShotEvent` | the one-shot `Event` wrapper |

Some behaviour of the code is surprising. This project models it as
written:

- **Removed events in the list adapter.** A removed child stays in the
  list adapter's rows: the adapter ignores removed events, and only its
  own leave action drops the room (`RoomList.RemovalDiverges`).
- **Matching an existing room.** A room is matched not by the set of its
  two participants but by whether the printed `users` map contains both
  uids as substrings (`Resolver.MentionIsNotMembership`).
- **The room search query.** The repository's search is not filtered on
  the opponent's membership: it only orders by the caller's own
  `joinState`.
- **Leaving.** The repository's and the list adapter's quit write only
  `joinState = false`; `onlineState` keeps its value
  (`Reaper.WriteLeft`).
- **Which flag the census tests.** The chat screen's census tests
  `onlineState`, not membership (Findings).
- **A failed creation.** The repository reports a failed creation as the
  pair `("", false)`, not as a distinct error.
- **Ties in the room list.** Rooms whose last messages share a timestamp
  keep the order in which the adapter's `HashMap` enumerates them, so the
  adapter and the repository may show tied rooms in different orders
  (`RoomList.HashOrderDecidesTies`).

## Model

All source paths are under `app/src/main/java/com/example/firechat/`; the table repeats the prefix so that every cell is a full path.

| member | source | states |
|---|---|---|
| `Wrappers.Deref` | app/src/main/java/com/example/firechat/view/adapter/ChattingRoomRecyclerAdapter.kt:94 | `!!` yields the value exactly when it is present and a NullDereference crash otherwise |
| `ChatModel.EventKey` | app/src/main/java/com/example/firechat/model/repository/ChattingListRepository.kt:22-48 | added, changed and removed events carry the snapshot key; moved and cancelled events carry none |
| `LinkedMap.Get` | app/src/main/java/com/example/firechat/model/repository/ChattingRoomRepository.kt:18-19 | a lookup answers exactly for keys the map holds, with a value bound to that key in the map |
| `LinkedMap.Put` | app/src/main/java/com/example/firechat/model/repository/ChattingRoomRepository.kt:36 | `map[key] = value` binds the key to the value and leaves every other key's binding as it was |
| `LinkedMap.PutKeys` | app/src/main/java/com/example/firechat/model/repository/ChattingRoomRepository.kt:18-19 | insertion order: putting a present key keeps the key order, and a new key goes to the end |
| `LinkedMap.PutUnique` | app/src/main/java/com/example/firechat/model/repository/ChattingRoomRepository.kt:36 | a put keeps keys unique; the size grows by one exactly when the key was new |
| `LinkedMap.Remove` | app/src/main/java/com/example/firechat/model/repository/ChattingRoomRepository.kt:55 | after `remove(key)` the key is absent and every other key's binding is unchanged |
| `LinkedMap.RemoveEntries` | app/src/main/java/com/example/firechat/model/repository/ChattingRoomRepository.kt:55 | removal keeps exactly the entries with other keys, and removing an absent key changes nothing |
| `LinkedMap.RemoveUnique` | app/src/main/java/com/example/firechat/model/repository/ChattingRoomRepository.kt:55 | removal keeps keys unique, and removing a present key shrinks the map by exactly one |
| `LinkedMap.UniqueIffDistinct` | app/src/main/java/com/example/firechat/model/repository/ChattingRoomRepository.kt:18-19 | a map's keys are unique exactly when its key list has no repetition |
| `LinkedMap.PutSame` | app/src/main/java/com/example/firechat/model/repository/ChattingRoomRepository.kt:36 | putting the value a key already holds leaves the map identical, order included |
| `Mirror.MirrorApply` | app/src/main/java/com/example/firechat/model/repository/ChattingListRepository.kt:22-48 | an added or changed event binds exactly its key to the decoded value; a removed event deletes its key; other keys keep their bindings; a null key or undecodable value changes nothing; insertion order and key uniqueness are kept |
| `Mirror.ReplayIsLastBinding` | app/src/main/java/com/example/firechat/model/repository/ChattingRoomRepository.kt:31-65 | after any stream of child events each key holds what the last event naming it left, or its initial binding if no event named it |
| `Mirror.UpsertIdempotent` | app/src/main/java/com/example/firechat/model/repository/ChattingListRepository.kt:23-35 | delivering the same added or changed event twice leaves the map as delivering it once |
| `MessageLog.Subscribe` | app/src/main/java/com/example/firechat/model/repository/ChattingRoomRepository.kt:21-68 | subscribing empties the local messages and attaches a listener last; a detach of the previous listener comes first exactly when one was set |
| `MessageLog.OnMessageEvent` | app/src/main/java/com/example/firechat/model/repository/ChattingRoomRepository.kt:32-58 | a message event updates the map as the shared mirror does and publishes exactly when the event was handled |
| `MessageLog.FeedIsReplay` | app/src/main/java/com/example/firechat/model/repository/ChattingRoomRepository.kt:31-65 | the repository's map after a stream of events is the replay of those events on the map it started from |
| `MessageLog.SubscriptionIsFresh` | app/src/main/java/com/example/firechat/model/repository/ChattingRoomRepository.kt:21-22 | after a (re)subscription each key holds only what events since then bound, whatever was there before |
| `MessageLog.ReplayUnique` | app/src/main/java/com/example/firechat/model/repository/ChattingRoomRepository.kt:31-58 | any stream of events keeps message keys unique |
| `MessageLog.ReadWrite` | app/src/main/java/com/example/firechat/model/repository/ChattingRoomRepository.kt:89-94 | the read receipt leaves the message confirmed with its other fields unchanged, touches no other message, and on a missing key creates a record holding only `confirmed = true` |
| `MessageLog.ReadWriteIdempotent` | app/src/main/java/com/example/firechat/model/repository/ChattingRoomRepository.kt:89-94 | repeating a read receipt changes nothing |
| `MessageLog.PresenceWrite` | app/src/main/java/com/example/firechat/model/repository/ChattingRoomRepository.kt:107-113 | the presence write sets the caller's own state and nobody else's |
| `MessageLog.PresenceWritesCommute` | app/src/main/java/com/example/firechat/model/repository/ChattingRoomRepository.kt:107-113 | two users' presence writes give the same states in either order |
| `MessageLog.OpponentOnline` | app/src/main/java/com/example/firechat/model/repository/ChattingRoomRepository.kt:116-133 | the opponent-online callback reports true exactly when the opponent's entry exists with `onlineState` true; a missing entry reports false |
| `MessageLog.OwnWriteKeepsOpponentState` | app/src/main/java/com/example/firechat/model/repository/ChattingRoomRepository.kt:107-125 | the caller's own presence write never changes what is reported about the opponent |
| `MessageView.Initial` | app/src/main/java/com/example/firechat/view/adapter/ChattingRoomRecyclerAdapter.kt:29-31 | the adapter starts empty, with key and body lists aligned with the map |
| `MessageView.Confirm` | app/src/main/java/com/example/firechat/view/adapter/ChattingRoomRecyclerAdapter.kt:92-95 | setting `confirmed` on one message keeps its other fields, the other messages and the key order |
| `MessageView.ViewApply` | app/src/main/java/com/example/firechat/view/adapter/ChattingRoomRecyclerAdapter.kt:64-116 | added puts the message (null key or body is a crash); changed only confirms an existing key (a missing key is a crash); removed deletes the key; key and body lists stay aligned with the map |
| `MessageView.ChangedIgnoresPayload` | app/src/main/java/com/example/firechat/view/adapter/ChattingRoomRecyclerAdapter.kt:86-97 | a changed event's outcome does not depend on its payload |
| `MessageView.ChangedIdempotent` | app/src/main/java/com/example/firechat/view/adapter/ChattingRoomRecyclerAdapter.kt:86-97 | a second identical changed event leaves the view as the first left it |
| `MessageView.ViewType` | app/src/main/java/com/example/firechat/view/adapter/ChattingRoomRecyclerAdapter.kt:119-125 | the view type is 1 exactly when the sender is the current user, otherwise 0 |
| `MessageView.Bind` | app/src/main/java/com/example/firechat/view/adapter/ChattingRoomRecyclerAdapter.kt:148-232 | binding fails exactly when the message's date text cannot be rendered; otherwise it shows that date text, marks an opponent's message read keeping the view aligned, and gives only the caller's own messages the delete action, which changes nothing at bind time |
| `MessageView.ReceiptMarksBoundMessage` | app/src/main/java/com/example/firechat/view/adapter/ChattingRoomRecyclerAdapter.kt:224-230 | the receipt written for a successfully bound opponent message confirms in the store the very message the row shows |
| `MessageView.MalformedDateCrashesBind` | app/src/main/java/com/example/firechat/view/adapter/ChattingRoomRecyclerAdapter.kt:236-238 | a message whose date is not a timestamp crashes the row as it is bound |
| `Reaper.LeftCount` | app/src/main/java/com/example/firechat/model/repository/ChattingListRepository.kt:88-94 | the number of users who have left never exceeds the number of users |
| `Reaper.LeftCountAll` | app/src/main/java/com/example/firechat/model/repository/ChattingListRepository.kt:85-100 | the count of left users equals the total exactly when every user has left, an empty users map included |
| `Reaper.AvailableCheck` | app/src/main/java/com/example/firechat/model/repository/ChattingRoomRepository.kt:137-162 | the census loop counts all users and the left ones, and deletes exactly when every user has left |
| `Reaper.WriteLeft` | app/src/main/java/com/example/firechat/model/repository/ChattingListRepository.kt:74-76 | leaving sets only the caller's `joinState` to false, keeps its `onlineState`, and touches no other user |
| `Reaper.PutLeftAllLeft` | app/src/main/java/com/example/firechat/model/repository/ChattingListRepository.kt:73-106 | after the caller writes any left state, everyone has left exactly when every other user had already left |
| `Reaper.WriteLeftAllLeft` | app/src/main/java/com/example/firechat/model/repository/ChattingListRepository.kt:73-106 | after the leave write, everyone has left exactly when every other user had already left |
| `Reaper.RepositoryQuit` | app/src/main/java/com/example/firechat/model/repository/ChattingListRepository.kt:73-106 | a failed leave write changes nothing; otherwise the room is deleted exactly when every other user had already left |
| `Reaper.AdapterQuit` | app/src/main/java/com/example/firechat/view/adapter/ChattingListRecyclerAdapter.kt:183-195 | the list's leave action writes the caller's leave and deletes exactly when every other user had already left |
| `Reaper.LastToLeaveDeletes` | app/src/main/java/com/example/firechat/view/adapter/ChattingListRecyclerAdapter.kt:235-260 | in a two-user room, leaving deletes it exactly when the other user has already left |
| `Resolver.KeyInEntriesText` | app/src/main/java/com/example/firechat/model/repository/NewChatRepository.kt:33-36 | every key of a map occurs in the map's printed form |
| `Resolver.KeyInMapText` | app/src/main/java/com/example/firechat/model/repository/NewChatRepository.kt:33-36 | every key of a non-null map occurs in the printed `{k=v, …}` form |
| `Resolver.FirstMention` | app/src/main/java/com/example/firechat/model/repository/NewChatRepository.kt:31-42 | the scan returns the first room whose users text contains both uids, and none exactly when no room's text does |
| `Resolver.ParticipantsAreFound` | app/src/main/java/com/example/firechat/model/repository/NewChatRepository.kt:31-41 | a room holding both users is always matched, by itself or an earlier room |
| `Resolver.MentionIsNotMembership` | app/src/main/java/com/example/firechat/model/repository/NewChatRepository.kt:33-38 | the substring test also matches a room of which one uid is only a part of another uid |
| `Resolver.Candidate` | app/src/main/java/com/example/firechat/model/repository/NewChatRepository.kt:47-58 | the new room has null messages, the opponent as (true, false), the caller as (true, true) when distinct, and no other user |
| `Resolver.CandidateShape` | app/src/main/java/com/example/firechat/model/repository/NewChatRepository.kt:48-57 | for distinct users the new room's users map has exactly the two keys, caller first |
| `Resolver.Resolve` | app/src/main/java/com/example/firechat/model/repository/NewChatRepository.kt:26-58 | a missing uid is a null crash; otherwise the first room whose text contains both uids is reused, and when there is none the candidate is created |
| `Resolver.CreateOutcome` | app/src/main/java/com/example/firechat/model/repository/NewChatRepository.kt:44-65 | reuse answers `(key, true)` with no write; creation pushes the candidate and answers `(newKey, false)`, or `("", false)` on failure |
| `Resolver.SearchCreate` | app/src/main/java/com/example/firechat/view/adapter/UserSearchRecyclerAdapter.kt:124-178 | the search adapter offers the first matching room without a write, or pushes the candidate and navigates with the blank key only on success |
| `Resolver.SearchAgreesWithRepository` | app/src/main/java/com/example/firechat/view/adapter/UserSearchRecyclerAdapter.kt:124-178 | the search adapter and the repository reuse the same room and create the same candidate |
| `Resolver.JoinedRooms` | app/src/main/java/com/example/firechat/view/activity/ChattingRoomActivity.kt:192-193 | the `users/<uid>/joinState == true` query keeps exactly the rooms that user has joined |
| `Resolver.ScreenResolve` | app/src/main/java/com/example/firechat/view/activity/ChattingRoomActivity.kt:191-209 | the key is that of the first room, in query order, that the opponent has joined and whose users text contains both uids; no earlier room matches; none exactly when no room matches |
| `Resolver.FirstScreenMatch` | app/src/main/java/com/example/firechat/view/activity/ChattingRoomActivity.kt:191-209 | a direct scan: the answer is the key of a matching room with no matching room before it, and none exactly when no room matches |
| `Resolver.FirstMatchSkipsHead` | app/src/main/java/com/example/firechat/view/activity/ChattingRoomActivity.kt:196-202 | past a first room that does not match, the first match of the rest is the first match of the whole list, and there is none exactly when the rest has none |
| `Resolver.QueryScanStep` | app/src/main/java/com/example/firechat/view/activity/ChattingRoomActivity.kt:191-209 | filtering to joined rooms and then taking the first mention, applied to a non-empty room list, either answers with its head or continues with the tail |
| `Resolver.QueryScanIsFirstMatch` | app/src/main/java/com/example/firechat/view/activity/ChattingRoomActivity.kt:191-209 | the screen's filter-then-first query equals the direct first-match scan on every room list |
| `Resolver.LegacyScreenResolve` | app/src/main/java/com/example/firechat/ChattingRoomActivity.kt:125-143 | the older screen gives the first room, in query order, with `users/<opponent> == true` whose text contains both uids; none exactly when no room matches |
| `Resolver.LegacyFirstMatchSkipsHead` | app/src/main/java/com/example/firechat/ChattingRoomActivity.kt:130-136 | the same step for the older screen's rooms |
| `Resolver.LegacySearchCreate` | app/src/main/java/com/example/firechat/UserSearchRecyclerAdapter.kt:93-118 | the older adapter pushes the candidate exactly when the opponent has joined no room at all, and crashes while its own user is unset |
| `Resolver.LegacyBlockedByThirdUser` | app/src/main/java/com/example/firechat/UserSearchRecyclerAdapter.kt:99-112 | an opponent's room with a third user stops the older adapter from creating a room |
| `Resolver.CurrentCreatesDespiteThirdUser` | app/src/main/java/com/example/firechat/model/repository/NewChatRepository.kt:31-58 | the repository creates the room in the same situation |
| `Resolver.LegacySearchSkipsNewPair` | app/src/main/java/com/example/firechat/UserSearchRecyclerAdapter.kt:99-112 | the older adapter and the repository disagree on this input (Findings) |
| `RoomList.RepositoryApply` | app/src/main/java/com/example/firechat/model/repository/ChattingListRepository.kt:22-48 | a room event updates the map as the mirror does and emits the sorted list exactly when the event was handled |
| `RoomList.EmissionIsSortedPermutation` | app/src/main/java/com/example/firechat/model/repository/ChattingListRepository.kt:22-48 | every emitted list is a permutation of the map with unique keys, ordered by last message date with message-less rooms last; a removed key is not in it |
| `RoomList.PermutationKeepsKeys` | app/src/main/java/com/example/firechat/model/repository/ChattingListRepository.kt:108-112 | a permutation of the map lists exactly the map's keys |
| `RoomList.PermutationKeepsUniqueKeys` | app/src/main/java/com/example/firechat/model/repository/ChattingListRepository.kt:108-112 | a permutation of a map with unique keys has unique keys |
| `RoomList.AdapterApply` | app/src/main/java/com/example/firechat/view/adapter/ChattingListRecyclerAdapter.kt:75-99 | added and changed events put the room and re-sort the hash-ordered rows (a null key or room is a crash, and so is a null message map among two or more rooms); removed and moved events change nothing |
| `RoomList.AdapterUpsert` | app/src/main/java/com/example/firechat/view/adapter/ChattingListRecyclerAdapter.kt:78-89 | the upsert binds the room to its key and fails exactly when two or more rooms are held and one has null messages; otherwise the shown rows are the sort of the map's enumeration |
| `RoomList.AdapterLeave` | app/src/main/java/com/example/firechat/view/adapter/ChattingListRecyclerAdapter.kt:193-194 | the leave action removes the room's key, keeps every other binding, and shows the sort of what remains, without the room; it fails exactly when the sort meets a null message map |
| `RoomList.AdapterAgreesWithRepository` | app/src/main/java/com/example/firechat/view/adapter/ChattingListRecyclerAdapter.kt:78-89 | on added and changed events the adapter holds the repository's rooms and shows the same rooms, newest first, as the repository emits; the two lists are equal when the enumerations coincide |
| `RoomList.EnumerationKeepsRooms` | app/src/main/java/com/example/firechat/view/adapter/ChattingListRecyclerAdapter.kt:105-108 | an enumeration of the adapter's map has as many rooms as the map and holds a null message map exactly when the map does |
| `RoomList.HashOrderDecidesTies` | app/src/main/java/com/example/firechat/view/adapter/ChattingListRecyclerAdapter.kt:105-108 | two rooms whose last messages share a date keep whichever order the map enumerates them in |
| `RoomList.TiedPairStays` | app/src/main/java/com/example/firechat/view/adapter/ChattingListRecyclerAdapter.kt:105-108 | the stable sort keeps two equally ranked rooms in place |
| `RoomList.RemovalDiverges` | app/src/main/java/com/example/firechat/view/adapter/ChattingListRecyclerAdapter.kt:91-92 | on a removed event the repository drops the room while the adapter keeps it |
| `RoomList.FirstOther` | app/src/main/java/com/example/firechat/view/adapter/ChattingListRecyclerAdapter.kt:129-130 | the first position whose key differs from the caller's, or none when every key is the caller's |
| `RoomList.CounterpartKey` | app/src/main/java/com/example/firechat/view/adapter/ChattingListRecyclerAdapter.kt:129-130 | the counterpart is the first users key other than the caller; null users crash and an all-self map fails |
| `RoomList.ViewModelCounterpart` | app/src/main/java/com/example/firechat/viewModel/ChattingListViewModel.kt:25-26 | the view model's counterpart is `""` for null users or when no key differs from the caller |
| `RoomList.CounterpartsAgree` | app/src/main/java/com/example/firechat/viewModel/ChattingListViewModel.kt:25-26 | the view model picks the adapter's counterpart and says `""` exactly where the adapter fails |
| `RoomList.UnreadCount` | app/src/main/java/com/example/firechat/view/adapter/ChattingListRecyclerAdapter.kt:228-231 | the unread count is at most the message count, zero exactly when no message is unconfirmed from another sender, and full exactly when all are |
| `RoomList.UnreadCountAppend` | app/src/main/java/com/example/firechat/view/adapter/ChattingListRecyclerAdapter.kt:228-231 | a new message raises the count by one exactly when it is unconfirmed and from another sender |
| `RoomList.OwnMessageNeverCounts` | app/src/main/java/com/example/firechat/view/adapter/ChattingListRecyclerAdapter.kt:228-231 | the caller's own messages never add to the count |
| `RoomList.UnreadCountConfirm` | app/src/main/java/com/example/firechat/view/adapter/ChattingListRecyclerAdapter.kt:228-231 | confirming a message lowers the count by one if it was unread, otherwise leaves it |
| `RoomList.ListTile` | app/src/main/java/com/example/firechat/view/adapter/ChattingListRecyclerAdapter.kt:126-169 | the tile names the counterpart and, for a room with messages, shows the last message's content and date and the unread count, the badge exactly when positive; it fails exactly when the counterpart fails, the messages are null, or the last message's date does not parse |
| `RoomList.LegacyTile` | app/src/main/java/com/example/firechat/ChattingRoomRecyclerAdapter.kt:37-69 | the older tile names the opponent and shows the older choice of last message, its content and date, with the unread count; it fails exactly when no opponent is found, the messages are null, or the last date cannot be labelled |
| `RoomList.TileShowsNewestMessage` | app/src/main/java/com/example/firechat/view/adapter/ChattingListRecyclerAdapter.kt:152-158 | the row shows one message of the room whole, content with its own date; no message is newer, and every message listed before it is older |
| `RoomList.LegacyTileShowsNewestMessage` | app/src/main/java/com/example/firechat/ChattingRoomRecyclerAdapter.kt:55-59 | the older row shows one message of the room whole; no message is newer, and every message listed after it is older |
| `RoomList.MalformedDateCrashesTile` | app/src/main/java/com/example/firechat/view/adapter/ChattingListRecyclerAdapter.kt:264-266 | a last message whose date is not a timestamp crashes both tiles |
| `RoomList.LegacyLoad` | app/src/main/java/com/example/firechat/ChattingRoomRecyclerAdapter.kt:168-186 | the one-shot load clears the rooms but not the keys, appends each child to both lists, and crashes on a null key or room |
| `RoomList.AppendChildren` | app/src/main/java/com/example/firechat/ChattingRoomRecyclerAdapter.kt:175-178 | the loop appends every child's room and key after what was there, in order |
| `RoomList.LegacyLoadLockstep` | app/src/main/java/com/example/firechat/ChattingRoomRecyclerAdapter.kt:172-180 | from empty keys `rooms[i]` belongs to `keys[i]`; on a reload the two lists no longer have the same length |
| `RoomList.Lookups` | app/src/main/java/com/example/firechat/viewModel/ChattingListViewModel.kt:24-26 | one user lookup per room, keyed by that room's counterpart |
| `RoomList.Appended` | app/src/main/java/com/example/firechat/viewModel/ChattingListViewModel.kt:27-28 | each arriving lookup appends exactly one entry of its room's key, the user found and the room |
| `RoomList.Posted` | app/src/main/java/com/example/firechat/viewModel/ChattingListViewModel.kt:16-37 | an empty room list posts an empty list; otherwise the list is posted once all rooms have answered, in arrival order |
| `RoomList.PostedOrder` | app/src/main/java/com/example/firechat/viewModel/ChattingListViewModel.kt:27-32 | when lookups answer in room order the posted list follows the room order |
| `RoomList.PostedFollowsArrival` | app/src/main/java/com/example/firechat/viewModel/ChattingListViewModel.kt:27-32 | lookups answering out of order post the rooms out of order |
| `RoomList.PostedPermutation` | app/src/main/java/com/example/firechat/viewModel/ChattingListViewModel.kt:21-32 | whenever every room answers exactly once, in any order, the posted list holds exactly the rooms the repository gave |
| `RoomList.PickPermutation` | app/src/main/java/com/example/firechat/viewModel/ChattingListViewModel.kt:27 | picking rooms by two lists of positions that are permutations of each other yields the same rooms, in some order |
| `RoomOrder.FirstMaxIndex` | app/src/main/java/com/example/firechat/model/repository/ChattingListRepository.kt:114-116 | `maxByOrNull` picks a maximal date, and the first one among equal maxima |
| `RoomOrder.LastMaxIndex` | app/src/main/java/com/example/firechat/ChattingRoomRecyclerAdapter.kt:90-92 | the older ascending sort's last element is a maximal date, and the last one among equal maxima |
| `RoomOrder.FirstAndLastMaxAgree` | app/src/main/java/com/example/firechat/ChattingRoomRecyclerAdapter.kt:90-92 | with distinct dates the two choices agree |
| `RoomOrder.LastMessage` | app/src/main/java/com/example/firechat/model/repository/ChattingListRepository.kt:114-116 | the last message is a message of the room with a maximal date, the first such in map order, and null exactly when there are no messages |
| `RoomOrder.LegacyLastMessage` | app/src/main/java/com/example/firechat/ChattingRoomRecyclerAdapter.kt:90-92 | the older last message is a maximal one, the last such in map order, and `last()` on no messages throws |
| `RoomOrder.LegacyLastIsSortedLast` | app/src/main/java/com/example/firechat/ChattingRoomRecyclerAdapter.kt:91 | it is the last element of the stable ascending sort by date |
| `RoomOrder.RevisionsDisagreeOnTies` | app/src/main/java/com/example/firechat/ChattingRoomRecyclerAdapter.kt:90-92 | two messages with the same date: the revisions pick different last messages |
| `RoomOrder.LastDate` | app/src/main/java/com/example/firechat/model/repository/ChattingListRepository.kt:110 | a room's sort key is the greatest message date it holds, null when messages are null or empty |
| `RoomOrder.RanksAheadIsStrictTotalOrder` | app/src/main/java/com/example/firechat/model/repository/ChattingListRepository.kt:109-111 | descending dates with nulls last is a strict total order on sort keys |
| `RoomOrder.SortRooms` | app/src/main/java/com/example/firechat/model/repository/ChattingListRepository.kt:108-112 | sorting keeps the number of rooms |
| `RoomOrder.SortRoomsOrder` | app/src/main/java/com/example/firechat/model/repository/ChattingListRepository.kt:108-112 | the sorted rooms are a permutation, ordered by last date descending with message-less rooms after every other, and rooms of equal key keep their map order |
| `RoomOrder.AdapterSortRooms` | app/src/main/java/com/example/firechat/view/adapter/ChattingListRecyclerAdapter.kt:105-109 | the adapter's sort is the same order, but with two or more rooms it throws if any room has null messages |
| `StableSort.InsertPermutation` | app/src/main/java/com/example/firechat/model/repository/ChattingListRepository.kt:109-111 | inserting adds exactly the item to the multiset |
| `StableSort.InsertSorted` | app/src/main/java/com/example/firechat/model/repository/ChattingListRepository.kt:109-111 | inserting into a sorted list keeps it sorted |
| `StableSort.InsertWithKey` | app/src/main/java/com/example/firechat/model/repository/ChattingListRepository.kt:109-111 | inserting after the items of equal key keeps that key's items in their order, the new one last |
| `StableSort.SortPermutation` | app/src/main/java/com/example/firechat/model/repository/ChattingListRepository.kt:109-111 | `sortedWith` returns a permutation of its input |
| `StableSort.SortSorted` | app/src/main/java/com/example/firechat/model/repository/ChattingListRepository.kt:109-111 | for a strict total order the result is sorted |
| `StableSort.SortStable` | app/src/main/java/com/example/firechat/model/repository/ChattingListRepository.kt:109-111 | the sort is stable: the items of each key keep their input order |
| `StableSort.SortLast` | app/src/main/java/com/example/firechat/ChattingRoomRecyclerAdapter.kt:91 | the last item of the sort is the last among the maximal items |
| `RoomScreen.Open` | app/src/main/java/com/example/firechat/view/activity/ChattingRoomActivity.kt:180-186 | `setChattingRoom`: the screen starts joined and not finishing; a blank key waits for resolution, otherwise the messages are shown and the caller's (true, true) presence is written |
| `RoomScreen.Launch` | app/src/main/java/com/example/firechat/view/activity/ChattingRoomActivity.kt:58-69 | `onCreate` crashes exactly when the logged-in uid or any of the `chatRoom`, `chatRoomKey` and `opponent` extras is null, and otherwise opens the screen with the key and opponent it was given |
| `RoomScreen.CurrentLauncherCrashes` | app/src/main/java/com/example/firechat/view/adapter/ChattingListRecyclerAdapter.kt:173-178 | an open from either current launcher, which put no `chatRoom`, crashes whoever is logged in |
| `RoomScreen.FixedLaunch` | app/src/main/java/com/example/firechat/view/activity/ChattingRoomActivity.kt:112-127 | without the unused `chatRoom` read, `onCreate` crashes exactly when the uid, the key or the opponent is null, and otherwise opens the screen as given |
| `RoomScreen.FixedLauncherOpens` | app/src/main/java/com/example/firechat/view/adapter/UserSearchRecyclerAdapter.kt:187-193 | with the read dropped, an open from a current launcher shows the screen for the key and opponent put, and agrees with the as-written launch wherever that one succeeds |
| `RoomScreen.KeyResolved` | app/src/main/java/com/example/firechat/view/activity/ChattingRoomActivity.kt:191-209 | a resolved key is adopted and shown with the caller's presence written; no match changes nothing |
| `RoomScreen.ShowFound` | app/src/main/java/com/example/firechat/view/activity/ChattingRoomActivity.kt:233-247 | showing the messages writes only the caller's own presence |
| `RoomScreen.Send` | app/src/main/java/com/example/firechat/view/activity/ChattingRoomActivity.kt:218-230 | empty input sends nothing; otherwise one message is pushed with the formatted time, and `confirmed` set to the last seen opponent `onlineState`; the input is cleared only on success |
| `RoomScreen.Observe` | app/src/main/java/com/example/firechat/view/activity/ChattingRoomActivity.kt:250-264 | without an opponent entry the remembered online flag is kept |
| `RoomScreen.ObserveAgrees` | app/src/main/java/com/example/firechat/view/activity/ChattingRoomActivity.kt:250-264 | with an opponent entry the screen's flag is what the repository's callback reports |
| `RoomScreen.ObserveKeepsStaleOnline` | app/src/main/java/com/example/firechat/view/activity/ChattingRoomActivity.kt:254-258 | when the opponent's entry vanishes the screen keeps "online" while the repository reports offline |
| `RoomScreen.GoBack` | app/src/main/java/com/example/firechat/view/activity/ChattingRoomActivity.kt:147-151 | the back arrow writes only the caller's presence |
| `RoomScreen.BackPressed` | app/src/main/java/com/example/firechat/view/activity/ChattingRoomActivity.kt:276-281 | the system back writes only the caller's presence |
| `RoomScreen.QuitConfirmed` | app/src/main/java/com/example/firechat/view/activity/ChattingRoomActivity.kt:161-173 | confirming the quit clears the screen's `joinState` and writes no presence of its own; only the `onlineState` census and the return home follow |
| `RoomScreen.Destroy` | app/src/main/java/com/example/firechat/view/activity/ChattingRoomActivity.kt:97-104 | teardown writes only the caller's presence |
| `RoomScreen.LeavingWrites` | app/src/main/java/com/example/firechat/view/activity/ChattingRoomActivity.kt:97-104 | the back arrow sets `finishCheck`, so its exit writes presence once; the system back does not set it, so its exit writes twice, the teardown writing `(joinState, false)` |
| `RoomScreen.QuitSequence` | app/src/main/java/com/example/firechat/view/activity/ChattingRoomActivity.kt:97-104 | the quit runs the census and goes home first; the later teardown then writes the caller's `(false, false)`, once |
| `RoomScreen.Step` | app/src/main/java/com/example/firechat/view/activity/ChattingRoomActivity.kt:286-290 | any user action keeps the uid, clears `joinState` exactly on quit, and writes only the caller's presence |
| `RoomScreen.RunPresence` | app/src/main/java/com/example/firechat/view/activity/ChattingRoomActivity.kt:286-290 | over any run, `joinState` stays true exactly until a quit, and every presence write is the caller's own, with `joinState` false only after a quit |
| `RoomScreen.RunPresenceAfterQuit` | app/src/main/java/com/example/firechat/view/activity/ChattingRoomActivity.kt:286-290 | `joinState` is never set back to true, and every presence write is the caller's own |
| `RoomScreen.ScreenQuit` | app/src/main/java/com/example/firechat/view/activity/ChattingRoomActivity.kt:294-320 | the screen's quit writes `(false, false)` and deletes exactly when every user reads offline, counted before or after that write |
| `RoomScreen.ScreenQuitWhileOnline` | app/src/main/java/com/example/firechat/view/activity/ChattingRoomActivity.kt:303 | a caller still online never deletes when the census runs first |
| `RoomScreen.ScreenQuitKeepsAbandoned` | app/src/main/java/com/example/firechat/view/activity/ChattingRoomActivity.kt:294-320 | census first: a room whose other user has left survives (Findings) |
| `RoomScreen.ScreenQuitDeletesShared` | app/src/main/java/com/example/firechat/view/activity/ChattingRoomActivity.kt:294-320 | census after the write: a room whose other user is still a member is deleted (Findings) |
| `RoomScreen.FixedScreenQuit` | app/src/main/java/com/example/firechat/view/activity/ChattingRoomActivity.kt:294-320 | write first, then test membership: deleted exactly when every other user had already left |
| `RoomScreen.LegacyOpen` | app/src/main/java/com/example/firechat/ChattingRoomActivity.kt:114-120 | the older screen shows the messages exactly when the key is not blank, with no presence write |
| `RoomScreen.LegacyLaunch` | app/src/main/java/com/example/firechat/ChattingRoomActivity.kt:77-91 | the older `onCreate` crashes exactly when the signed-in uid or one of the three extras is null, and otherwise opens the older screen as given |
| `RoomScreen.LegacyLauncherOpens` | app/src/main/java/com/example/firechat/UserSearchRecyclerAdapter.kt:122-129 | the older launchers put the room with the key and opponent, so a signed-in open reaches `setChattingRoom` |
| `RoomScreen.LegacyKeyResolved` | app/src/main/java/com/example/firechat/ChattingRoomActivity.kt:125-143 | a key found by the older resolution is adopted and shown; no match changes nothing |
| `RoomScreen.LegacySend` | app/src/main/java/com/example/firechat/ChattingRoomActivity.kt:150-161 | empty input sends nothing; otherwise one message with the default `confirmed = false` is pushed; the input is cleared only on success |
| `RoomScreen.SendRevisionsDiffer` | app/src/main/java/com/example/firechat/ChattingRoomActivity.kt:150-152 | the two revisions push the same message except that only the current one copies the opponent's online flag into `confirmed` |
| `Text.Trim` | app/src/main/java/com/example/firechat/view/activity/RegisterActivity.kt:84-86 | `trim()` is a slice of its input that neither starts nor ends with whitespace |
| `Text.BlankIffTrimEmpty` | app/src/main/java/com/example/firechat/view/activity/RegisterActivity.kt:84-86 | a string is blank exactly when its trim is empty |
| `Text.TrimIdempotent` | app/src/main/java/com/example/firechat/view/activity/RegisterActivity.kt:84-86 | trimming never lengthens, and trimming twice is trimming once |
| `Text.Contains` | app/src/main/java/com/example/firechat/model/repository/NewChatRepository.kt:33-37 | `contains` holds exactly when the pattern occurs at some position |
| `Text.ContainsInContext` | app/src/main/java/com/example/firechat/model/repository/NewChatRepository.kt:33-37 | an occurrence stays an occurrence inside a longer text |
| `Text.AbsentHeadNotContained` | app/src/main/java/com/example/firechat/model/repository/NewChatRepository.kt:33-37 | a text lacking the pattern's first character does not contain it |
| `Text.LowerAll` | app/src/main/java/com/example/firechat/viewModel/NewChatViewModel.kt:32 | lower-casing maps each character and keeps the length |
| `Text.ContainsIgnoreCase` | app/src/main/java/com/example/firechat/viewModel/NewChatViewModel.kt:32 | `contains(ignoreCase = true)` holds exactly when the pattern matches some position up to case |
| `Text.ContainsImpliesIgnoreCase` | app/src/main/java/com/example/firechat/viewModel/NewChatViewModel.kt:32 | a case-sensitive match is also a case-insensitive one |
| `Text.LexLessIrreflexive` | app/src/main/java/com/example/firechat/model/repository/ChattingListRepository.kt:110 | no string sorts before itself |
| `Text.LexLessAsymmetric` | app/src/main/java/com/example/firechat/model/repository/ChattingListRepository.kt:110 | two strings never sort before each other |
| `Text.LexLessTransitive` | app/src/main/java/com/example/firechat/model/repository/ChattingListRepository.kt:110 | string order is transitive |
| `Text.LexLessTotal` | app/src/main/java/com/example/firechat/model/repository/ChattingListRepository.kt:110 | of two different strings one sorts before the other |
| `Text.LexLessConcat` | app/src/main/java/com/example/firechat/model/repository/ChattingListRepository.kt:110 | with equal-length heads, order is decided by the heads and then by the tails |
| `Text.Utf16Length` | app/src/main/java/com/example/firechat/view/activity/RegisterActivity.kt:113 | `length` counts UTF-16 units: between one and two per character, one for each exactly when none is supplementary, two exactly when all are |
| `Text.DigitValue` | app/src/main/java/com/example/firechat/model/data/ChattingRoomTimeData.kt:20-24 | a digit's value is below ten and is written back as the same digit |
| `Text.Decimal` | app/src/main/java/com/example/firechat/view/adapter/ChattingRoomRecyclerAdapter.kt:239-242 | a number prints as digits, without a leading zero from ten on |
| `Text.DecimalValue` | app/src/main/java/com/example/firechat/view/adapter/ChattingRoomRecyclerAdapter.kt:239-242 | reading a printed number gives the number back |
| `Text.Fixed` | app/src/main/java/com/example/firechat/view/activity/ChattingRoomActivity.kt:268-273 | a fixed-width field is exactly its width of digits |
| `Text.FixedValue` | app/src/main/java/com/example/firechat/model/data/ChattingRoomTimeData.kt:20-24 | reading a fixed-width field gives the number it was written from |
| `Text.FixedOrder` | app/src/main/java/com/example/firechat/model/repository/ChattingListRepository.kt:110 | fixed-width fields compare as strings exactly as their numbers compare |
| `Text.FixedInjective` | app/src/main/java/com/example/firechat/view/activity/ChattingRoomActivity.kt:268-273 | different numbers give different fixed-width fields |
| `Text.PadZeros` | app/src/main/java/com/example/firechat/view/adapter/ChattingRoomRecyclerAdapter.kt:239-242 | zero padding reaches the width and ends with the original text |
| `Text.FormatInt` | app/src/main/java/com/example/firechat/view/adapter/ChattingRoomRecyclerAdapter.kt:239-242 | `%0Nd` of a non-negative number is at least N long and ends with its digits; a negative one starts with `-` |
| `Text.PadDecimalFixed` | app/src/main/java/com/example/firechat/view/adapter/ChattingRoomRecyclerAdapter.kt:239-242 | zero-padding a number that fits the width gives its fixed-width field |
| `Text.FormatIntFixed` | app/src/main/java/com/example/firechat/view/adapter/ChattingRoomRecyclerAdapter.kt:239-242 | `%0Nd` of a number that fits is its fixed-width field |
| `Text.ParseInt` | app/src/main/java/com/example/firechat/model/data/ChattingRoomTimeData.kt:20-24 | `toInt` gives a 32-bit value, the digits' value for a digit string that fits, and fails on the empty string |
| `Text.Substring` | app/src/main/java/com/example/firechat/model/data/ChattingRoomTimeData.kt:20-24 | `substring(i, j)` succeeds exactly when `j` is within the string, giving that slice |
| `Text.FieldInt` | app/src/main/java/com/example/firechat/model/data/ChattingRoomTimeData.kt:20-24 | a field read is out of bounds past the end, otherwise `toInt` of the slice |
| `Timestamp.Format` | app/src/main/java/com/example/firechat/view/activity/ChattingRoomActivity.kt:268-273 | `yyyyMMddHHmmss` of a valid time is 14 digits |
| `Timestamp.FieldThenRest` | app/src/main/java/com/example/firechat/model/repository/ChattingListRepository.kt:110 | a fixed-width field followed by more text compares field first, then the rest |
| `Timestamp.FormatOrder` | app/src/main/java/com/example/firechat/model/repository/ChattingListRepository.kt:108-112 | formatted timestamps compare as strings exactly as the times compare, field by field down to seconds |
| `Timestamp.FormatInjective` | app/src/main/java/com/example/firechat/view/activity/ChattingRoomActivity.kt:268-273 | different times give different timestamps |
| `Timestamp.ParseTimeData` | app/src/main/java/com/example/firechat/model/data/ChattingRoomTimeData.kt:19-25 | the constructor succeeds exactly when the five fields read as integers and the date pattern then reads the string (longer than 12 characters, no `+` on a field, a digit at position 12), giving those five fields |
| `Timestamp.ParseIgnoresSeconds` | app/src/main/java/com/example/firechat/model/data/ChattingRoomTimeData.kt:19-25 | strings of at least 13 characters that agree on their first 13 parse alike; the rest of the seconds is never read |
| `Timestamp.MinutesOnlyThrows` | app/src/main/java/com/example/firechat/model/data/ChattingRoomTimeData.kt:20-25 | a formatted time cut after the minutes reads all five fields and still throws at the date pattern |
| `Timestamp.ParseFormat` | app/src/main/java/com/example/firechat/model/data/ChattingRoomTimeData.kt:20-24 | parsing a formatted time gives back its year, month, day, hour and minute |
| `Timestamp.FormatFields` | app/src/main/java/com/example/firechat/model/data/ChattingRoomTimeData.kt:20-24 | each fixed position of a formatted time reads back as its field |
| `Timestamp.FieldOf` | app/src/main/java/com/example/firechat/model/data/ChattingRoomTimeData.kt:20-24 | a fixed-width field anywhere in a string reads back as its number |
| `Timestamp.ClockHour` | app/src/main/java/com/example/firechat/view/adapter/ChattingRoomRecyclerAdapter.kt:244-252 | 24 is 오전 0, 12 is 오후 12, 13 to 23 are 오후 h-12, below 12 is 오전 h, so hours 0 to 24 show 0 to 12 |
| `Timestamp.ClockHourRoundTrip` | app/src/main/java/com/example/firechat/view/adapter/ChattingRoomRecyclerAdapter.kt:244-252 | from the word and the shown hour the hour of the day can be read back |
| `Timestamp.DateText` | app/src/main/java/com/example/firechat/view/adapter/ChattingRoomRecyclerAdapter.kt:236-255 | the bubble date exists exactly when the timestamp parses, date pattern included |
| `Timestamp.RenderFixed` | app/src/main/java/com/example/firechat/view/adapter/ChattingRoomRecyclerAdapter.kt:239-252 | for fields that fit, the bubble is `yyyy-MM-dd`, a newline, the word, a space, and zero-padded `hh:mm` |
| `Timestamp.RenderLength` | app/src/main/java/com/example/firechat/view/adapter/ChattingRoomRecyclerAdapter.kt:239-252 | for fields that fit, the bubble has 19 characters |
| `Timestamp.DateTextOfFormat` | app/src/main/java/com/example/firechat/view/adapter/ChattingRoomRecyclerAdapter.kt:236-255 | the bubble of a formatted time shows that time's date, word, hour and minute, 19 characters |
| `ElapsedTime.Bucket` | app/src/main/java/com/example/firechat/view/adapter/ChattingListRecyclerAdapter.kt:273-306 | under a minute (negative too) is "just now"; then minutes 1-59, hours 1-23, days 1-6, weeks 1-3, the "1 month" literal, months 1-12 and years, each count the whole units in the gap |
| `ElapsedTime.BucketMonotone` | app/src/main/java/com/example/firechat/view/adapter/ChattingListRecyclerAdapter.kt:273-306 | a longer gap never gets a smaller unit, nor a smaller count in the same unit |
| `ElapsedTime.BucketWellFormed` | app/src/main/java/com/example/firechat/view/adapter/ChattingListRecyclerAdapter.kt:294-301 | every label has its count in range, a zero month count never occurring |
| `ElapsedTime.ParseCounted` | app/src/main/java/com/example/firechat/view/adapter/ChattingListRecyclerAdapter.kt:276-305 | a label's count and unit can be split back apart |
| `ElapsedTime.ParseUnitOf` | app/src/main/java/com/example/firechat/view/adapter/ChattingListRecyclerAdapter.kt:276-305 | a count and a unit name the bucket they came from |
| `ElapsedTime.RenderParse` | app/src/main/java/com/example/firechat/view/adapter/ChattingListRecyclerAdapter.kt:273-306 | every label names exactly its bucket back |
| `ElapsedTime.RenderInjective` | app/src/main/java/com/example/firechat/view/adapter/ChattingListRecyclerAdapter.kt:273-306 | different buckets have different labels |
| `ElapsedTime.ReadFields` | app/src/main/java/com/example/firechat/ChattingRoomRecyclerAdapter.kt:106-115 | the older label reads month, day, hour and minute, failing on a timestamp under 12 characters |
| `ElapsedTime.FieldDiff` | app/src/main/java/com/example/firechat/ChattingRoomRecyclerAdapter.kt:117-146 | a positive month difference gives months; else a day difference of 1 gives yesterday, above 1 days; else hours, then minutes; else "just now" |
| `ElapsedTime.FieldLabelOf` | app/src/main/java/com/example/firechat/ChattingRoomRecyclerAdapter.kt:102-147 | the older label fails on a timestamp under 12 characters |
| `ElapsedTime.FieldLabelReadsOnlyFields` | app/src/main/java/com/example/firechat/ChattingRoomRecyclerAdapter.kt:106-115 | year and seconds never affect the older label |
| `ElapsedTime.YearBoundaryFallsThrough` | app/src/main/java/com/example/firechat/ChattingRoomRecyclerAdapter.kt:123-127 | across a new year a negative month difference falls through to the day test, here to "just now" |
| `FormValidation.RegisterCheck` | app/src/main/java/com/example/firechat/view/activity/RegisterActivity.kt:94-120 | sign-up checks name, email, password blank, then length at least 6 UTF-16 units, reports the first failure, and accepts exactly when all pass; the older copy (app/src/main/java/com/example/firechat/RegisterActivity.kt:94-120) is identical |
| `FormValidation.AttemptRegister` | app/src/main/java/com/example/firechat/view/activity/RegisterActivity.kt:83-90 | registration is requested exactly when the trimmed fields are non-empty and the trimmed password has 6 UTF-16 units, and with the trimmed values |
| `FormValidation.EmojiPasswordLongEnough` | app/src/main/java/com/example/firechat/view/activity/RegisterActivity.kt:113 | three emoji pass the length check, since each counts two units, while five letters do not |
| `FormValidation.PaddedPasswordTooShort` | app/src/main/java/com/example/firechat/view/activity/RegisterActivity.kt:84-117 | a six-character password with a leading space is refused as too short |
| `FormValidation.LoginCheck` | app/src/main/java/com/example/firechat/view/activity/LoginActivity.kt:131-145 | sign-in checks email blank, then password blank, and accepts exactly when both are non-blank; the older copy is identical |
| `FormValidation.AttemptLogin` | app/src/main/java/com/example/firechat/view/activity/LoginActivity.kt:99-108 | sign-in is attempted exactly when both trimmed fields are non-empty, with the trimmed values |
| `FormValidation.RegisterAcceptsImpliesLoginAccepts` | app/src/main/java/com/example/firechat/view/activity/LoginActivity.kt:131-145 | any email and password sign-up accepts are accepted by sign-in |
| `OneShotEvent.NewEvent` | app/src/main/java/com/example/firechat/viewModel/Event.kt:4-6 | a new event holds its content and is not handled |
| `OneShotEvent.GetContentIfNotHandled` | app/src/main/java/com/example/firechat/viewModel/Event.kt:13-20 | the content is returned exactly when not yet handled; afterwards the event is handled and its content unchanged |
| `OneShotEvent.HandledStaysNull` | app/src/main/java/com/example/firechat/viewModel/Event.kt:14-15 | a handled event answers null to every call |
| `OneShotEvent.OnlyFirstCallGetsContent` | app/src/main/java/com/example/firechat/viewModel/Event.kt:13-19 | of any number of calls the first gets the content and all later ones null |
| `UserSearch.Filter` | app/src/main/java/com/example/firechat/view/adapter/UserSearchRecyclerAdapter.kt:94 | `filter` keeps exactly the items that pass |
| `UserSearch.FilterIsSubsequence` | app/src/main/java/com/example/firechat/view/adapter/UserSearchRecyclerAdapter.kt:94 | a filter result is an order-preserving subsequence of its input |
| `UserSearch.FilterMonotone` | app/src/main/java/com/example/firechat/viewModel/NewChatViewModel.kt:32 | a stricter test keeps a subsequence of what a looser test keeps |
| `UserSearch.Others` | app/src/main/java/com/example/firechat/view/adapter/UserSearchRecyclerAdapter.kt:66-74 | the loaded users are exactly the decoded users whose uid is not the caller's |
| `UserSearch.Decoded` | app/src/main/java/com/example/firechat/model/repository/NewChatRepository.kt:13-24 | `mapNotNull` keeps exactly the decodable users |
| `UserSearch.WithoutSelf` | app/src/main/java/com/example/firechat/viewModel/NewChatViewModel.kt:20 | the self filter keeps exactly the users whose uid is not the caller's |
| `UserSearch.GetAllUsers` | app/src/main/java/com/example/firechat/viewModel/NewChatViewModel.kt:18-23 | the view model's user list holds exactly the decoded users other than the caller |
| `UserSearch.OthersIsGetAllUsers` | app/src/main/java/com/example/firechat/viewModel/NewChatViewModel.kt:20 | the adapter and the view model load the same list in the same order |
| `UserSearch.SetAllUser` | app/src/main/java/com/example/firechat/view/adapter/UserSearchRecyclerAdapter.kt:60-84 | a reload replaces the list with the other users, and a null child crashes when the caller is known |
| `UserSearch.SetAllUserAgrees` | app/src/main/java/com/example/firechat/view/adapter/UserSearchRecyclerAdapter.kt:64-76 | a successful reload equals the view model's list |
| `UserSearch.SearchName` | app/src/main/java/com/example/firechat/view/adapter/UserSearchRecyclerAdapter.kt:90-97 | the empty query shows everyone; otherwise the users whose name contains the query, case-sensitive and in order, and a null name crashes |
| `UserSearch.SearchUser` | app/src/main/java/com/example/firechat/viewModel/NewChatViewModel.kt:28-35 | a blank query gives every user; otherwise the users whose name contains it ignoring case, null names excluded, in order |
| `UserSearch.SearchNameWithinSearchUser` | app/src/main/java/com/example/firechat/viewModel/NewChatViewModel.kt:28-35 | the adapter's case-sensitive result is a subsequence of the view model's result |
| `UserSearch.LegacyStep` | app/src/main/java/com/example/firechat/UserSearchRecyclerAdapter.kt:38-49 | a null child crashes; the caller's record becomes the current user; any other user is appended |
| `UserSearch.LegacySetAllUser` | app/src/main/java/com/example/firechat/UserSearchRecyclerAdapter.kt:33-55 | the older load appends the other users to what was there, remembers the last self record, and shows the list only when something was appended |
| `UserSearch.LegacyLoopFails` | app/src/main/java/com/example/firechat/UserSearchRecyclerAdapter.kt:38-49 | the older loop crashes exactly when some child is null |
| `UserSearch.LegacyLoopResult` | app/src/main/java/com/example/firechat/UserSearchRecyclerAdapter.kt:37-49 | the older loop appends exactly the other users, in order |
| `UserSearch.LegacyLoopCurrent` | app/src/main/java/com/example/firechat/UserSearchRecyclerAdapter.kt:41-44 | the current user becomes the last self record seen |
| `UserSearch.LegacyReloadDuplicates` | app/src/main/java/com/example/firechat/UserSearchRecyclerAdapter.kt:37-47 | two loads of one snapshot list every user twice in the older adapter, once in the current one (Findings) |
| `UserSearch.LegacySearchName` | app/src/main/java/com/example/firechat/UserSearchRecyclerAdapter.kt:61-72 | the older search shows a copy of every user for the empty query; otherwise the name filter, crashing on a null name, with the accumulated users kept |
| `UserSearch.LegacySearchNameAgrees` | app/src/main/java/com/example/firechat/UserSearchRecyclerAdapter.kt:61-72 | the older search shows exactly what the current adapter's search shows |
| `UserSearch.Construct` | app/src/main/java/com/example/firechat/view/adapter/UserSearchRecyclerAdapter.kt:53-84 | construction sets the reference and the listener and attaches it |
| `UserSearch.Detach` | app/src/main/java/com/example/firechat/view/adapter/UserSearchRecyclerAdapter.kt:197-201 | the listener is detached exactly when both the reference and the listener were initialised; otherwise nothing changes |
| `UserSearch.DetachAfterConstruct` | app/src/main/java/com/example/firechat/view/adapter/UserSearchRecyclerAdapter.kt:197-201 | after construction a detach always detaches, and a second detach changes nothing |

## Left out

- Firebase I/O is not modelled: listener registration, query execution,
  write completion and `onCancelled`. Query results are parameters in
  query order, writes are returned values, and a write's success is a
  boolean parameter.
- Races between clients are not modelled: two users creating a room at
  once, or presence propagating late. The one ordering question the code
  leaves open, whether the chat screen's census reads the map before or
  after its own `(false, false)` write, is the `censusFirst` parameter of
  `RoomScreen.ScreenQuit`.
- Firebase Auth is not part of this model: `AuthRepository` in both
  places, `AuthViewModel`, `ViewModel`, the callbacks, `AuthState` and
  `TaskRemoveService`. Their decisions are tests on exception classes whose
  hierarchy is not visible. The forms are modelled up to the request they
  make.
- `viewModel/ChattingViewModel.kt` only delegates, and it calls methods the
  repository does not have.
- UI work is not modelled: layouts, Toasts, focus changes, dialogs,
  scrolling, DiffUtil, the loading dialog, and the home, new-chat and drawer
  screens. The profile repository is Storage and Glide.
- Clocks are not modelled:
  - `LocalDateTime.now` becomes a `Timestamp.DateTime` parameter.
  - The list's millisecond difference from `Calendar`/`SimpleDateFormat`
    (view/adapter/ChattingListRecyclerAdapter.kt:266-271) becomes an
    integer parameter.
  - The value of the `dateTime` field parsed at
    model/data/ChattingRoomTimeData.kt:25 is not modelled; whether the
    parse succeeds is.
- Only ASCII case folding is modelled (`Text.Lower`): Kotlin's
  `lowercase` also folds other alphabets.
- `Text.ParseInt`: its contract pins down only unsigned digit strings.
  The body accepts an optional sign and ASCII digits; Kotlin's `toInt`
  also accepts other Unicode decimal digits, which the model rejects.
- `Text.LexLess` compares code points, while Kotlin's `compareTo` compares
  UTF-16 units. The two agree on strings without supplementary
  characters.
- `Timestamp.ParseTimeData` approximates `SimpleDateFormat`'s own reading
  of signs, blanks and digits. The model accepts a `-` at the start of any
  of the five fields, because `toInt` takes a sign there, and rejects a `+`
  there. It rejects a `-` or a blank at position 12, where the seconds
  field starts. It rejects non-ASCII digits everywhere. Whether the
  lenient pattern agrees on these inputs is not modelled.
- `Resolver.StateText` renders a presence entry as
  `{joinState=…, onlineState=…}`, and `Resolver.UsersText` renders users in
  stored order. The raw snapshot value is a `HashMap` of `HashMap`s whose
  enumeration order is unspecified. The lemmas that find a uid in the text
  (`Resolver.KeyInMapText`, `Resolver.ParticipantsAreFound`) hold in any
  order; the over-matching witnesses assume the fixed one.
- `RoomList.Posted` returns the list as posted. The live `tempData` list
  keeps growing after the post when a lookup answers more than once,
  which is not modelled.
- `MessageView.ViewApply` confirms a changed message at once. The code
  sets the flag in the `submitList` commit callback
  (view/adapter/ChattingRoomRecyclerAdapter.kt:91-94); events arriving
  between the change and the commit are not modelled.
- `RoomList.AdapterAgreesWithRepository` states agreement up to the order
  of rooms whose last messages share a date, which is all the code
  guarantees.
- `ElapsedTime.Bucket` treats the difference as an unbounded integer and
  does not model `Long` overflow.
- `Timestamp.Valid` bounds the year to four digits, so `RoomScreen.Send`
  and `RoomScreen.LegacySend` require a valid clock. The app's formatter
  would print a year from 10000 on with a leading `+`.
- The `!!` on a null presence entry inside the census loops is not
  modelled. The store never sends such an entry for a key it lists.
- Repository `sendMessage` and `deleteMessage`
  (model/repository/ChattingRoomRepository.kt:76-101) are single writes with
  no local logic; the screen's send is modelled as the pushed message.
- The older revision has a presence type mismatch. `data/ChattingRoom.kt`
  stores presence as booleans (`ChatModel.LegacyRoom`), so its queries on
  `users/<uid>` compare a boolean. The current revision's queries on
  `joinState` are modelled separately.
- `data/Message.kt` is not part of this model. The older screens use the
  current `Message` shape.
- The chat screen's key resolution is modelled in `Resolver.ScreenResolve`;
  in a run of screen actions its answer is the `found` field of the
  `KeyAnswer` action.
- `CurrentUserData` (the logged-in uid) is an explicit parameter
  throughout.
- `RoomScreen.Observe`: its own contract covers only the case without an
  opponent entry; the case with an entry is stated through
  `RoomScreen.ObserveAgrees`.

## Findings

| source | as written | input that shows it | evidently intended | confidence | as-written member | corrected member |
|---|---|---|---|---|---|---|
| app/src/main/java/com/example/firechat/UserSearchRecyclerAdapter.kt:99-112 | the room is pushed only when the opponent has joined no room at all | caller `Kim`; opponent `bob`; the only room `r1` holds `bob` and `carol` | create a room unless one already holds both users, as the current repository does | not executed | `Resolver.LegacySearchSkipsNewPair` | `Resolver.Resolve` |
| app/src/main/java/com/example/firechat/view/activity/ChattingRoomActivity.kt:294-320 | the quit's census counts `onlineState == false` instead of `joinState == false` | census first with `me (true, true)` and `you (false, false)`: the abandoned room is kept; census after the write with `me (true, true)` and `you (true, false)`: the shared room is deleted | write the caller's leave, then delete exactly when every user has left by `joinState`, as the repository's quit does | not executed | `RoomScreen.ScreenQuitKeepsAbandoned` | `RoomScreen.FixedScreenQuit` |
| app/src/main/java/com/example/firechat/UserSearchRecyclerAdapter.kt:37-47 | `allUserList` is never cleared, so each change of the user node appends everyone again | any snapshot with one user other than the caller, loaded twice | clear the list before reloading, as the current adapter does | not executed | `UserSearch.LegacyReloadDuplicates` | `UserSearch.SetAllUser` |
| app/src/main/java/com/example/firechat/view/activity/ChattingRoomActivity.kt:112-118 | `initProperty` reads a `chatRoom` extra, throwing when it is null, but neither current launcher (view/adapter/ChattingListRecyclerAdapter.kt:174-177, view/adapter/UserSearchRecyclerAdapter.kt:189-191) puts one, and the value is never used | any open from the room list or from the search, for any logged-in user and key | read only the key and the opponent, as the launchers supply | not executed | `RoomScreen.CurrentLauncherCrashes` | `RoomScreen.FixedLaunch` |
